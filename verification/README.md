# liblo in Dafny

A model of the core of liblo, the Open Sound Control (OSC) 1.0 library, with proofs about it. It
covers five parts and the places where they meet:

- the message codec: the builder calls, serialisation, validation and deserialisation
  (`Bytes`, `OscArgs`, `Varargs`, `Memory`, `ArgMemory`, `Validators`, `Packets`, `Messages`), with
  the bytes on the wire and the error codes written out (`WireBytes`, `Refusals`);
- bundles as a graph of shared objects: the check against cycles, length and serialisation, and
  reference-counted release (`Graphs`, `Bundles`, `Trees`, `BundleCodec`, `Refcounts`, `Survivors`,
  `BundleFree`, `BundleRuns`);
- the address pattern matcher and its declarative meaning (`PatternMatch`, `PatternLoops`,
  `PatternLanguage`, `PatternLists`, `PatternMeaning`, `PatternSlips`, `PatternReadings`);
- the server: the dispatch of packets, the queue of future messages, the table of methods,
  the coercion of arguments (`Timetags`, `Rounding`, `Scheduling`, `Dispatching`, `Traces`, `Nesting`,
  `Arrivals`, `Exactness`, `Harvests`, `Overtaking`, `LinkedLists`, `Servers`, `ServerRuns`, `Queueing`,
  `Coercion`, `Methods`);
- transport: count-prefixed frames over a stream, and SLIP (`Streams`, `Slip`, `SlipDecoder`,
  `SlipThreads`).

`Loopback` joins them: what is built, serialised, and dispatched arrives as it was built.

## How to read it

Code that changes objects or buffers in place is a method over a class or an array, with the loops
of the source, and is proved against a function of the old state. The functions are then the
subject of the theorems. Objects the source links with pointers (the queue, the list of methods) are
linked nodes with a ghost sequence, `spine`, that says which nodes they are. `hide` statements
only tell the verifier which definitions a proof does not need.

The main results:

- `Exactness.DispatchIsTraceExactly`: the dispatch of the bytes of a packet is the in-order trace of its
  tree if and only if the packet is well-formed.
- `Arrivals.EveryMessageArrives` and, for any bytes, `Harvests.BytesArrive`: every message of a packet is
  delivered or queued, once and in order. `ServerRuns.ServerConserves`: in every run of received bytes,
  dispatches and switches of the queueing, each message received is delivered or queued, once; messages of
  one time that differ keep their order of arrival exactly if none of them overtakes another.
- `Queueing.QueuedExactly` and `Queueing.NothingQueued`: which messages wait, and that with queueing disabled none
  does, for any bytes and in every run (`Queueing.DisabledStaysEmpty`).
- `Packets.PacketsAreMessages`: accepted packets and sendable messages are in bijection. `WireBytes` gives the bytes
  of both, number by number, and `Refusals.RefusedExactly` the defect behind every error code.
- `Methods.MethodTable.DispatchMethod`: exactly the handlers whose name is in the language of the path, and whose types
  fit, are called. `Loopback.MessageToHandler`: with what the sender put in.
- `Methods.TypesDecide`, `Methods.PlainDeletes` and `Methods.PatternDeletes`: exactly which methods a deletion removes.
- `Bundles.LoBundleAddBundle` and `BundleRuns.ApplyAll`: a bundle is refused exactly if it would close a
  cycle, so after every run of additions the graph in memory is acyclic and every reference count is the
  number of references.
- `BundleFree.LoBundleFreeMessages`: a release leaves exactly the objects that something else still holds,
  and frees every other once.
- `PatternMeaning.MatchIsMeaning`, `PatternMeaning.MatchIsComplete` and `PatternSlips.ListExactly`: the
  matcher and the declarative language agree; `PatternReadings` writes out what the parts of a pattern accept.
- `Scheduling.RunsAreOrdered` and `Scheduling.DispatchedExactly`: the queue over all runs.
  `Rounding.RoundingDecidesAlike`: its decisions are the same in rounded arithmetic.
- `Streams.Connection.ReceiveAll`: packets come out of a stream whole, however it is cut.
- `Slip.SlipRoundTrip`: the decoder of RFC 1055 inverts the encoder under any chunking.
  `SlipThreads.ThreadedDecodesExactly`: the chunkings under which the source's decoder does.

## Where the code does not keep what it promises

Each of these has a member at an input that fails, and the exact condition under which the code does meet
the property; for brace lists the exact condition is proved for one list before literal characters, and a
sufficient one otherwise.

- A message with a blob of more than 32768 bytes can be built and serialised. It is not sent, because
  `send_data` refuses every packet above that size (`src/send.c:438-443`), but its bytes can be handed to
  `lo_message_deserialise` or `lo_server_dispatch_data`, which refuse it (`Packets.ParseWire`,
  `Validators.OversizedBlobRefused`): the round trip holds if and only if no blob is larger.
- A message named `#bundle` is taken for a bundle (`Traces.MessageOrBundle`): if and only if it has
  that name. So a packet is dispatched as its tree says if and only if no message has that name and no
  blob is too large (`Exactness.DispatchIsTraceExactly`).
- `lo/lo_types.h:149-153` promises nested start and end callbacks. No end ever comes without its
  start, but a malformed message in a bundle leaves starts without an end; every start has its end if
  and only if no message in a bundle is malformed (`Nesting.StartsAndEnds`, `Nesting.UnendedBundle`).
- `lo/lo_types.h:160-163` says that the end callback comes after all the messages of the bundle have been
  dispatched. It does not wait for those that were queued (`Arrivals.EndsBeforeDelivery`). Everything is
  delivered by the end of the outer bundle if and only if every bundle with a message of its own is due
  when it begins (`Arrivals.DeliveredByTheEnd`).
- Messages of one time are dispatched from the queue in order of arrival, but one that arrives when it is due
  is delivered before those of its time still queued (`ServerRuns.Overtaken`). Messages that differ keep
  their order if and only if none does so (`ServerRuns.ServerConserves`, `Overtaking.KeepsOrderExactly`).
- A frame of more than 16385 bytes, though its sender may send up to 32768, can hang the growth of the
  receive buffer, and an empty frame blocks the connection; a packet survives every segmentation if
  and only if it is neither (`Streams.FitsExactly`, `Streams.GrowthEndsExactly`,
  `Streams.LongerHangs`, `Streams.EmptyFrameBlocks`).
- The SLIP decoder does not advance at an escape. A call in its first state agrees with RFC 1055 if and only
  if there is no escape in the chunk before the end of the packet, other than as the last byte; a call in the
  state after an escape, if and only if the chunk is empty or one escape code repeated
  (`SlipDecoder.AgreesExactly`). With the state threaded through any chunks, all calls agree if and only if
  every chunk is safe in this sense in the state it is met in (`SlipThreads.CallsAgreeExactly`), and the
  chunks of an encoded packet are decoded to its data under the same condition
  (`SlipThreads.ThreadedDecodesExactly`). In one chunk that means that the data has nothing to escape
  (`SlipThreads.WholeDecodesExactly`), while chunks of one byte are always decoded
  (`SlipThreads.ByteByByteDecodes`).
- `lo_message_add` promises less than 0 on failure (`lo/lo_lowlevel.h:144`), but returns 0 for an unknown type in
  front of `$$` (`Varargs.UnknownUnreported`). Its code is right if and only if there is no such type
  (`Varargs.ReportsExactly`).
- In brace lists a failed attempt at a comma also skips the next character, so `{a,b}ab` accepts `ab`
  (`PatternMeaning.SlipAccepts`), and a list directly before a star refuses a string that ends with the
  alternative (`PatternMeaning.StarAfterListRefuses`, `PatternSlips.RunsOut`). `PatternMeaning.Regular`
  excludes both and is sufficient for any pattern. For one list of separate alternatives before literal
  characters the matcher accepts exactly the language if and only if no alternative slips
  (`PatternSlips.ListExactly`).

## Model

| member | source | states |
|---|---|---|
| Bytes.StrLenPad | src/message.c:525-528 | The length of a padded string, read back from memory, is that of the string, whatever follows |
| Bytes.WordOfValue | src/message.c:706-783 | A 32-bit word and its unsigned value determine each other; which byte counts for what is WireBytes.NumberBytes |
| WireBytes.FramedBytes | src/send.c:477-481 | A packet on a stream, as every element of a bundle, stands behind its size in four bytes, the most significant first |
| WireBytes.BlobBytes | src/message.c:353-369 | A blob on the wire is its size in four bytes, the most significant first, its data, and zeros up to a multiple of four |
| WireBytes.StringBytes | src/message.c:525-528 | A string is its characters and one to four zeros, up to a multiple of four |
| WireBytes.NumberBytes | src/message.c:706-783 | Numbers of 32 and 64 bits and timetags are big-endian on the wire, seconds before the fraction |
| WireBytes.HostBytes | src/message.c:312-440 | In a message on the host they are little-endian, a 64-bit number as a whole |
| WireBytes.TagBytes | lo/lo_osc_types.h:72-106 | The type tag of each of the fourteen types as a byte, and the types without data |
| WireBytes.HeaderBytes | src/bundle.c:256-276 | A bundle begins with `#bundle` and a zero, the seconds and the fraction |
| WireBytes.ImmediateBytes | lo/lo_osc_types.h:153-158 | "Immediately" is 63 zero bits and a one |
| WireBytes.MessageBytes | src/message.c:834-865 | Path, comma and one tag for each argument, data |
| WireBytes.MessageExample | src/message.c:834-865 | All bytes of a message with an int32, a string, a blob and true |
| WireBytes.BundleExample | src/bundle.c:244-308 | All bytes of a bundle with one message |
| WireBytes.OffsetsExample | src/message.c:805-827 | The offsets of an int32, of true, of a string and of a double |
| Timetags.DiffSign | src/timetag.c:34-38 | In exact arithmetic with the decimal constant for 2^-32, the sign of the difference is the lexicographic order of (sec, frac), and it is zero only for equal timetags |
| Timetags.DiffStrictTotalOrder | src/timetag.c:34-38 | The comparison of the queue is a strict total order, that of the instants in ticks, and the difference is additive |
| Timetags.EpsilonWindow | src/server.c:1949-1951 | Less than FLT_EPSILON later means at most 512 ticks within a second, and at most 511 across a second |
| Rounding.RoundingDecidesAlike | src/timetag.c:34-38 | With every product and sum rounded as for doubles, the sign of the difference and its comparison with FLT_EPSILON are those of the exact one |
| OscArgs.NetAligned | src/message.c:530-565 | Every argument occupies a multiple of four bytes |
| OscArgs.WireAligned | src/message.c:795-798 | Every serialised message occupies a multiple of four bytes |
| Memory.WriteString | src/message.c:848-852 | Zeroing the last word and then copying with the terminator writes exactly the padded string and nothing else |
| ArgMemory.ArgSizeHost | src/message.c:530-565 | The size computed from memory in 32-bit arithmetic is that of the argument lying there, whatever follows |
| ArgMemory.SwappedArg | src/message.c:706-783 | The change of byte order takes the host form of every argument to its network form, and back |
| ArgMemory.LoArgSwapEndian | src/message.c:706-783 | Changes the order of the bytes of one argument in place and touches nothing else |
| Validators.LoValidateString | src/message.c:573-599 | The loop returns the padded size or the error code of the specification, in the order of the source's checks |
| Validators.ValidateStringAccepts | src/message.c:573-599 | Accepted bytes are exactly the zero-padding of their own characters |
| Validators.ValidateStringPad | src/message.c:573-599 | Every padded string is accepted, with its size and characters |
| Validators.LoValidateBlob | src/message.c:602-626 | The loop returns the padded size or the error code of the specification |
| Validators.LoValidateArg | src/message.c:669-703 | Size or error code for every type tag |
| Validators.DecodeArgSound | src/message.c:669-703 | Accepted bytes are the network form of the one argument they decode to, and are within the packet |
| Validators.DecodeArgNet | src/message.c:669-703 | The network form of a sendable argument is accepted whatever follows, and decodes to the argument |
| Validators.OversizedBlobRefused | src/message.c:612-614 | A blob above the size limit is refused, whatever follows |
| Refusals.StringCodes | src/message.c:573-599 | No terminating zero, a padding cut short, and a padding that is not zero have their codes, and only they |
| Refusals.BlobCodes | src/message.c:602-626 | The size or the code of a blob from its bytes: no size, more than 32768, too long for the packet, or a padding that is not zero |
| Refusals.ArgumentCodes | src/message.c:669-703 | The size or the code for every other type, and for a type that does not exist |
| Refusals.RefusedExactly | src/message.c:868-979 | A message is refused with a code if and only if it has the defect of that code, stated without the parser: no path, no types, no comma, an argument that is not there, or bytes left over |
| Refusals.ElementsFitExactly | src/message.c:646-665 | Elements fit exactly if the bytes are some packets, each behind its size |
| Refusals.BundleCodes | src/message.c:629-666 | Accepted exactly if the bytes are a bundle header and such elements; another string has its own code |
| Refusals.ThrownExactly | src/server.c:1599-1631 | For bytes that are no packet the server throws the error of the string, the bundle or the message, and does nothing else |
| Packets.ParseSound | src/message.c:868-979 | Canonical form: an accepted packet is byte for byte the serialisation of its message |
| Packets.ParseWire | src/message.c:868-979 | A serialised message is accepted and gives back path and arguments, or is refused with LO_EINVALIDARG exactly if a blob is too large |
| Packets.PacketsAreMessages | src/message.c:868-979 | A byte string is accepted if and only if it is the serialisation of a sendable message |
| Packets.WireInjective | src/message.c:834-865 | Different sendable messages have different bytes |
| Packets.ParsedPath | src/message.c:567-571 | The path of an accepted packet is the string it starts with, and error codes are positive |
| Messages.LoMessage.New | src/message.c:66-87 | An empty message |
| Messages.LoMessage.AddTypechar | src/message.c:475-496 | Appends one type character, growing the type string when it is full, and drops the cached argument offsets |
| Messages.LoMessage.AddData | src/message.c:498-523 | Makes room for the new data, keeping what is there |
| Messages.LoMessage.AddInt32 | src/message.c:312-324 | The message holds one more argument, and still the types and host-order data of its arguments |
| Messages.LoMessage.AddFloat | src/message.c:326-338 | As for AddInt32, for the word of a float |
| Messages.LoMessage.AddString | src/message.c:340-351 | As for AddInt32, with the string zero-padded |
| Messages.LoMessage.AddBlob | src/message.c:353-369 | As for AddInt32, with count and padding |
| Messages.LoMessage.AddInt64 | src/message.c:371-383 | As for AddInt32, for 64 bits |
| Messages.LoMessage.AddTimetag | src/message.c:385-397 | As for AddInt32, for the two words of a timetag |
| Messages.LoMessage.AddDouble | src/message.c:399-411 | As for AddInt32, for the 64 bits of a double |
| Messages.LoMessage.AddSymbol | src/message.c:413-424 | As for AddString, with the type of symbols |
| Messages.LoMessage.AddChar | src/message.c:426-440 | As for AddInt32, for a char widened to a word |
| Messages.LoMessage.AddMidi | src/message.c:442-453 | As for AddInt32, for four bytes without an order |
| Messages.LoMessage.AddTrue | src/message.c:455-458 | A type character without data |
| Messages.LoMessage.AddFalse | src/message.c:460-463 | A type character without data |
| Messages.LoMessage.AddNil | src/message.c:465-468 | A type character without data |
| Messages.LoMessage.AddInfinitum | src/message.c:470-473 | A type character without data |
| Messages.LoMessage.AddVarargs | src/message.c:138-289 | Appends what the specification of the call adds, and returns its code: for a type that is unknown, a marker in place of a symbol, dollar signs, or markers that are missing at the end |
| Varargs.ListIsAdded | src/message.c:138-289 | Types and values of any list add exactly that list, and 0 is returned if and only if the two markers follow |
| Varargs.SucceedsExactly | src/message.c:138-289 | 0 is returned exactly if the string is cut short by dollar signs after values that were passed, or every type is known and the markers follow |
| Varargs.ReportsExactly | lo/lo_lowlevel.h:144 | The code tells success from failure if and only if no dollar signs come behind an unknown type |
| Varargs.UnknownUnreported | src/message.c:243-254 | An unknown type, which otherwise is an error, is not reported in front of the dollar signs |
| Messages.LoMessage.Length | src/message.c:795-798 | The length is the number of bytes of the serialised message |
| Messages.LoMessage.GetArgv | src/message.c:805-827 | The offset of every argument is the sum of the sizes before it, none for an argument without data; cached and recomputed offsets agree |
| Messages.LoMessage.Serialise | src/message.c:834-865 | Writes path, types and network-order data at the given offset and nothing else, converting in place |
| Messages.HostArgs | src/message.c:953-967 | The loop accepts and converts exactly when the parse of the arguments succeeds, with the data in host order and the offsets of the builder |
| Messages.Deserialise | src/message.c:868-979 | The result is the parse of the packet: a valid message with its arguments and offsets, or the error of the failing check |
| Messages.WriteBlob | src/message.c:353-369 | Three overlapping writes leave count, data and zero padding |
| Graphs.UnfoldsIff | src/bundle.c:78-106 | A depth-first walk with a stack of parents succeeds if and only if no walk from its root comes back to a node |
| Graphs.EdgeCycle | src/bundle.c:148-150 | After one edge has been added to an acyclic graph, the walk from its source alone finds any cycle there is |
| Bundles.IsInList | src/bundle.c:67-76 | Non-zero exactly for a member of the stack |
| Bundles.WalkTree | src/bundle.c:78-106 | Ends on every graph, leaves the stack as it was, and returns zero exactly if no bundle lies below itself; sharing is no cycle |
| Bundles.LoBundleCircular | src/bundle.c:108-121 | Ends even on a cyclic graph, and reports failure if and only if a cycle can be reached |
| Bundles.LoBundleAddMessage | src/bundle.c:132-139 | A message is appended and its count incremented; the bundle graph does not change |
| Bundles.LoBundleAddBundle | src/bundle.c:140-165 | Succeeds if and only if the graph stays acyclic; a refused add restores elements and count |
| Bundles.RunsStayAcyclic | src/bundle.c:123-182 | Over every run of adds, each refused when the walk from its source would meet a cycle, the graph stays acyclic and every bundle has a finite tree |
| BundleRuns.ApplyBundle | src/bundle.c:140-165 | In memory: refused exactly if the walk would meet a cycle, and either way the graph stays acyclic and every count the number of references |
| BundleRuns.ApplyAll | src/bundle.c:123-182 | Any run of additions of messages and bundles leaves a graph in memory that is closed, acyclic and without the refused additions, and exact counts |
| BundleRuns.NewIsConsistent | src/bundle.c:24-35 | New bundles and messages, with nothing in them, are such a start |
| BundleRuns.MayRelease | src/bundle.c:341-354 | A bundle made by such a run may be released exactly when no bundle holds it |
| BundleCodec.UnfoldsHasTree | src/bundle.c:221-308 | In an acyclic graph every bundle, shared or not, has the finite tree the recursions follow |
| BundleCodec.LoBundleLength | src/bundle.c:221-242 | The length of a bundle graph is that of the bytes of its tree, shared bundles counted once per reference |
| BundleCodec.LoBundleSerialise | src/bundle.c:244-308 | Writes the bytes of the tree and nothing else, exactly as many as the length; neither data integrity exit is taken |
| Trees.TreeAligned | src/bundle.c:278-297 | Every packet, and so every element, occupies a multiple of four bytes |
| Refcounts.EverythingFreed | src/bundle.c:346-362 | In an acyclic graph, dropping the last reference to the only object without owners frees every object |
| Refcounts.DropFrees | src/bundle.c:346-362 | An object whose last reference is dropped is freed |
| Refcounts.DropKeeps | src/bundle.c:352-354 | An object with further references keeps them, and nothing else changes |
| Survivors.SurvivorsExactly | src/bundle.c:346-362 | In an acyclic graph exactly those objects survive a release that some other object without references reaches |
| Survivors.DropSpares | src/bundle.c:346-362 | A release does not touch another object without references |
| BundleFree.LoMessageFree | src/message.c:123-132 | One reference is dropped; a message is freed at its last one and is not touched afterwards |
| BundleFree.LoBundleFreeRecursive | src/bundle.c:346-362 | Does what the abstract release does; the counts of what is left are still the numbers of references to it |
| BundleFree.CollectAll | src/bundle.c:356-357 | The references of a bundle being freed are dropped one after the other, none after its target is freed |
| BundleFree.OwnershipAcyclic | src/bundle.c:324-339 | Ownership is acyclic because the bundle graph is |
| BundleFree.LoBundleFreeMessages | src/bundle.c:341-344 | Releasing a bundle that no other holds leaves exactly what another object without references still holds, with exact counts; with no other such object, everything is freed |
| PatternLoops.LoPatternMatch | src/pattern_match.c:105-262 | The loops, with the skip-ahead after a star and the early exit from a set, compute the plain recursive matcher |
| PatternLoops.ScanStar | src/pattern_match.c:117-134 | Skipping to the first equal character loses no match |
| PatternLoops.ScanSet | src/pattern_match.c:145-190 | The early exit and the two-character steps decide membership in the set |
| PatternLoops.ScanList | src/pattern_match.c:195-245 | The backtracking over a brace list is that of the recursive matcher |
| PatternLanguage.InSetIsInItems | src/pattern_match.c:158-180 | The scan decides membership in the written characters and ranges |
| PatternMeaning.MatchesWithoutBraces | src/pattern_match.c:105-190 | Without braces, a string is accepted if and only if it is in the declarative language |
| PatternMeaning.MatchIsMeaning | src/pattern_match.c:105-262 | The verdict is the declarative one for every string and every pattern whose brace lists are regular |
| PatternMeaning.MatchIsComplete | src/pattern_match.c:195-245 | With non-empty, prefix-free alternatives not followed by a star, every string of the language is accepted |
| PatternMeaning.MatchDefined | src/pattern_match.c:105-262 | Such a pattern without a dangling `[!` always reaches a verdict |
| PatternMeaning.SlipAccepts | src/pattern_match.c:211-221 | A string outside the language that is accepted |
| PatternMeaning.StarAfterListRefuses | src/pattern_match.c:227-230 | A string in the language that is refused |
| PatternSlips.ListExactly | src/pattern_match.c:195-245 | One list of separate alternatives before literal characters: the accepted strings are the language if and only if no alternative, less its first character, slips in |
| PatternSlips.SlipDiffers | src/pattern_match.c:211-221 | Wherever one slips, a string that is accepted outside the language |
| PatternSlips.RunsOut | src/pattern_match.c:227-230 | An alternative that ends the string is refused whatever follows the list, even if that can match nothing |
| PatternReadings.RangeReads | src/pattern_match.c:161-167 | A range in a pattern has its two ends and what lies strictly between them, characters from 0x80 on coming first |
| PatternReadings.NegatedRangeReads | src/pattern_match.c:161-183 | A negated range has everything else |
| PatternReadings.AsciiRangeReads | src/pattern_match.c:139-143 | Of ASCII characters those between the ends; a range written backwards has the ends only |
| PatternReadings.OpenRangeReads | src/pattern_match.c:168-172 | A range open at the bracket has everything from its first character on |
| PatternReadings.CharactersRead | src/pattern_match.c:173-190 | A set of single characters has just these, and negated everything else |
| PatternReadings.QueryReads | src/pattern_match.c:135-138 | A question mark is any one character |
| PatternReadings.LiteralsRead | src/pattern_match.c:253-256 | Other characters stand for themselves |
| PatternReadings.StarReads | src/pattern_match.c:117-134 | A star before literal characters: the strings that end with these |
| PatternReadings.TwoAlternativesRead | src/pattern_match.c:195-245 | A list of two separate alternatives that cannot slip has just these |
| Scheduling.InsertOrdered | src/server.c:1895-1910 | Inserting keeps the queue in order of time |
| Scheduling.InsertLast | src/server.c:1895-1910 | A new entry comes after those of its own time |
| Scheduling.RunsAreOrdered | src/server.c:1883-1954 | Over every interleaving the queue is sorted, and per time the dispatched and then the queued messages are those enqueued, in order of arrival |
| Scheduling.DispatchedExactly | src/server.c:1938-1951 | One call dispatches exactly the entries less than FLT_EPSILON after the first, though it tests only a prefix |
| Scheduling.DispatchAllEmpties | src/server.c:1949-1951 | Dispatching everything leaves nothing |
| Servers.Server.FindPlace | src/server.c:1895-1910 | The first node later than the entry, and the one in front of it, which is not: just where insertion in order puts it |
| Servers.Server.QueueData | src/server.c:1883-1919 | The linked queue with the entry inserted; no other node is touched but the one in front |
| Servers.Server.DispatchQueued | src/server.c:1921-1954 | Delivers the due prefix in order and leaves the rest; an empty queue is an error |
| Servers.Server.EnableQueue | src/server.c:786-797 | Returns the old setting; disabled with dispatch of the remaining, everything is delivered in order and nothing stays queued |
| Servers.Server.DispatchMessage | src/server.c:1676-1685 | A message that is a packet of its own is delivered at once as an immediate one, or its error thrown |
| Servers.Server.DispatchElement | src/server.c:1642-1670 | A message of a bundle is delivered or queued as its time demands, or its error thrown |
| Servers.Server.DispatchElements | src/server.c:1635-1675 | The loop over the elements of a validated bundle, which stops at a malformed message |
| Servers.Server.DispatchData | src/server.c:1599-1687 | For all bytes: events, queue, clock readings and result are those of the specification |
| Dispatching.LoValidateBundle | src/message.c:629-666 | Returns the size or the error code of the specification, for all bytes |
| Dispatching.ValidBundle | src/server.c:1617-1678 | A bundle that passes validation has room for its header and for all its elements |
| Traces.MessageOrBundle | src/server.c:1611 | A serialised message is taken for a bundle if and only if it is named like one |
| Traces.BundleValidates | src/message.c:629-666 | Every serialised bundle passes validation |
| Traces.DispatchIsTrace | src/server.c:1599-1687 | Dispatching the bytes of a well-formed packet is the in-order trace of its tree, with the time of the innermost bundle on every message |
| Exactness.DispatchIsTraceExactly | src/server.c:1599-1687 | The dispatch is the trace of the tree if and only if no message is named like a bundle and no blob is too large |
| Exactness.BundlesShow | src/server.c:1611-1631 | Whatever is dispatched as a bundle throws an error or begins, for all bytes |
| Exactness.TraceCounts | src/server.c:1632-1633 | The trace throws nothing, and begins each bundle of the tree once |
| Traces.ElementsAreTrace | src/server.c:1635-1675 | The loop over the elements yields their traces in order, whatever follows in the packet |
| Nesting.StartsAndEnds | lo/lo_types.h:149-153 | For all bytes, no end comes without its start, and every start has its end if and only if no message in a bundle is malformed |
| Nesting.UnendedBundle | src/server.c:1646-1650 | A bundle with one empty element begins and never ends |
| Arrivals.EveryMessageArrives | src/server.c:1659-1669 | Conservation: due messages are delivered in order, the others join the queue in order, none is both or neither |
| Arrivals.LeavesHoldMessages | src/server.c:1635-1675 | What arrives are all messages of the tree, in order, with their paths and data |
| Arrivals.LeavesHaveTimes | src/server.c:1649-1650 | Every message has the time of its innermost bundle, and "immediately" outside of any |
| Arrivals.DeliveredByTheEnd | lo/lo_types.h:160-163 | At the end of the outer bundle everything is delivered and nothing of it queued if and only if every bundle with a message of its own was due |
| Arrivals.EndsBeforeDelivery | lo/lo_types.h:160-163 | A bundle for later ends with its message still queued |
| Harvests.BytesArrive | src/server.c:1599-1687 | For all bytes, the messages come upon before any error are delivered if due and otherwise queued, each once and in order |
| Queueing.QueuedExactly | src/server.c:1659-1669 | A message in a bundle is queued if and only if queueing is enabled and the time is neither "immediately" nor reached; otherwise it is delivered |
| Queueing.NothingQueued | src/server.c:1660 | For all bytes: with queueing disabled the queue stays as it is, and every message come upon is delivered, in order |
| Queueing.DisabledStaysEmpty | src/server.c:786-797 | After queueing is disabled with dispatch of the rest, the queue is empty in every run until it is enabled again |
| Queueing.OtherCalls | src/server.c:786-797 | Switching alone changes nothing else; dispatching the rest delivers it in order; dispatching an empty queue is an error |
| Overtaking.KeepsOrderExactly | src/server.c:1659-1669 | In every run of arrivals and dispatches what arrived is delivered or queued, once; messages that differ keep their order per time if and only if none is delivered while another of its time is queued |
| ServerRuns.ServerConserves | src/server.c:1599-1687 | In every run of calls on the server, with any bytes and any switching of the queueing, delivered and queued messages are exactly those received, the queue is in order, and the order per time is kept exactly as for Overtaking.KeepsOrderExactly |
| ServerRuns.Execute | src/server.c:1599-1687 | The calls on the server object do what the run of the specification does |
| ServerRuns.Overtaken | src/server.c:1659-1669 | Three calls after which the message that came second has been delivered first |
| Coercion.CanCoerceSpec | src/server.c:2143-2158 | True exactly for type strings of equal length whose types can be coerced one by one |
| Coercion.CoercionTable | src/server.c:2160-2166 | The pairs of types that can be coerced, one by one |
| Coercion.TargetSize | src/server.c:1772-1775 | The size summed in the first pass, from the source argument, is that of the target |
| Coercion.HeldSize | src/server.c:1784-1785 | The size read back from what has been written is that of the target |
| Coercion.LoCoerce | src/message.c:1128-1170 | Zero, with nothing written, exactly for types that cannot be coerced; otherwise a complete value of the target type and nothing beyond its size |
| Coercion.CoercedSize | src/server.c:1768-1775 | The first pass computes the bytes of all targets |
| Coercion.LayArgs | src/server.c:1777-1787 | The second pass lays out, at each prefix sum of target sizes, a complete value |
| Coercion.CoerceArgs | src/server.c:1762-1787 | Both passes agree: the buffer is exactly as large as what is laid out in it |
| Coercion.LaidExample | src/server.c:1777-1787 | Bytes and pointers for a symbol and an int32 |
| Methods.MethodTable.AddMethod | src/server.c:1956-1994 | The list with the method appended, unless its name has a pattern character |
| Methods.MethodTable.Append | src/server.c:1983-1992 | The walk to the last node, and the new node behind it |
| Methods.MethodTable.Unlink | src/server.c:2023-2033 | Takes one node out and frees it; the node before it is used only when there is one |
| Methods.MethodTable.DelMethod | src/server.c:1996-2041 | The list without the methods accepted, which are those of Methods.TypesDecide, Methods.PlainDeletes and Methods.PatternDeletes; exactly those are freed, and no freed node is touched, whatever `prev` points to |
| Methods.DeletesExactly | src/server.c:2015-2023 | Every method that is accepted goes, every other stays, as often as it was there |
| Methods.TypesDecide | src/server.c:2019-2022 | A deletion leaves every method with another type specification, as often as it was there, and removes those of just that name and types |
| Methods.PlainDeletes | src/server.c:2015-2016 | Without a pattern no other name is removed |
| Methods.PatternDeletes | src/server.c:2017 | With a pattern, exactly the methods with those types whose name is in its language |
| Methods.LeftInOrder | src/server.c:2023-2033 | What is left is in the order it was in |
| Methods.DeleteUndoesAdd | src/server.c:1956-2041 | A deletion by name and types undoes the registration before it if nothing else has that name and those types |
| Methods.NoPatternsRegistered | src/server.c:1963-1968 | In every run no registered name is a pattern |
| Methods.PatternCharacters | src/server.c:1963 | A path is a pattern if it has one of nine characters |
| Methods.IsForExactly | src/server.c:1749-1757 | By name and types, in terms of the language of the path: which handlers a message is for |
| Methods.MethodTable.Serve | src/server.c:1747-1803 | A handler is called if and only if path and types match, exactly or by coercion, with the message or its coerced layout |
| Methods.MethodTable.DispatchMethod | src/server.c:1747-1807 | Called in order are, for a pattern, all handlers whose name is in its language and whose types fit, and otherwise all of that name, up to the first call that returns zero |
| Methods.FirstIsCalled | src/server.c:1747-1807 | For a plain path the first handler of that name, if it takes any types, is called first |
| Streams.FrameFound | src/server.c:917-927 | A frame is found once the whole of it is buffered and not before, whatever follows |
| Streams.IncompleteIsShort | src/server.c:917-927 | When no frame is complete, at most half of the largest buffer is taken |
| Streams.GrowthEndsExactly | src/server.c:975-996 | The growth loop ends if and only if no more than 16384 bytes are buffered |
| Streams.FitsExactly | src/server.c:917-996 | A packet can be received byte by byte if and only if it is not empty and its frame has at most 16385 bytes |
| Streams.LongerHangs | src/server.c:971-996 | A longer packet, received byte by byte, is not delivered up to half of the largest buffer, and hangs the growth loop at the next byte |
| Streams.EmptyFrameBlocks | src/server.c:921-927 | Nothing behind an empty frame is ever found |
| Streams.Connection.PeerSends | src/send.c:438-481 | Any packet is written behind its length, except one above the largest size, which is refused |
| Streams.Connection.CopyForDispatch | src/server.c:929-953 | The first complete packet, with what is left moved to the front; for any buffer contents |
| Streams.Connection.MakeRoom | src/server.c:973-1004 | The buffer grows to at most 32768 bytes, keeps its contents, and at least half of it is free |
| Streams.Connection.ReadMore | src/server.c:1006-1023 | One read never passes the end of the buffer, and frames delivered, bytes buffered and bytes unread stay what was sent |
| Streams.Connection.RecvRaw | src/server.c:958-1127 | Ends; a waiting packet is delivered without reading; otherwise the next packet sent, or nothing, and nothing is pending once the wire is drained |
| Streams.Connection.ReceiveAll | src/server.c:958-1127 | However the stream is cut, every packet sent is delivered once and in order, if all of them fit |
| Slip.SlipEncode | src/send.c:401-425 | The loop computes the encoding the theorems are about |
| Slip.EncodeShape | src/send.c:401-425 | The end marker is the last byte and no other, and the length is one more than that of the data and its escapes |
| Slip.EncodedBytes | src/send.c:401-425 | Byte by byte: the two special bytes become two, every other stays, and an end marker is added |
| Slip.PlainEncoded | src/send.c:401-425 | Data without special bytes is sent as it is |
| Slip.ChunksDoNotMatter | src/server.c:835-838 | The decoder of RFC 1055 with its state threaded through gives the same for every chunking |
| Slip.SlipRoundTrip | src/send.c:401-425 | Any packets, encoded and cut anywhere, are decoded to the same packets |
| SlipDecoder.SlipDecode | src/server.c:837-871 | The loop computes the source's scan from either state, with the read position left at an escape |
| SlipDecoder.ScanIsRfc | src/server.c:837-871 | What the source is compared with is the decoder of RFC 1055, up to the end of the packet |
| SlipDecoder.StuckAtEscape | src/server.c:849-867 | At an escape the rest of the chunk is consumed without output |
| SlipDecoder.AgreesExactly | src/server.c:837-871 | A call from either state returns what RFC 1055 asks if and only if the chunk is safe in that state |
| SlipThreads.CallsAgreeExactly | src/server.c:835-871 | For any chunks, with the state threaded, all calls agree with RFC 1055 if and only if every chunk is safe in the state it is met in |
| SlipThreads.SlipDecodeAll | src/server.c:835-871 | The calls on one chunk after the other, up to the end of a packet, compute the threaded scan |
| SlipThreads.ThreadedDecodesExactly | src/server.c:835-871 | The chunks of an encoded packet are decoded to its data if and only if they are safely cut |
| SlipThreads.WholeDecodesExactly | src/server.c:837-871 | In one chunk: if and only if the data has neither special byte |
| SlipThreads.ByteByByteDecodes | src/server.c:835-871 | In chunks of one byte: always |
| Loopback.MessageToSelf | src/message.c:834-979 | A message from any sequence of additions comes back with the same types, data and offsets, or is refused for an oversized blob |
| Loopback.SendToSelf | src/bundle.c:244-308 | An acyclic bundle graph, serialised and dispatched, reaches the receiver as the trace of its tree if and only if that is well-formed |
| Loopback.MessageToHandler | src/server.c:1690-1807 | A message that was built, sent and received calls the handler that is registered, exactly if path and types ask for it, under its name, with the types, data and offsets it was built with or those it was coerced to |

## Left out

- PatternMeaning.MatchIsMeaning: its conditions on brace lists are sufficient; they are shown necessary only for one list before literal characters, by `PatternSlips.ListExactly`.
- Timetags.DiffSign: in exact reals with the source's constant; `Rounding.RoundingDecidesAlike` carries it over to rounded differences.
- Timetags.DiffStrictTotalOrder: its additivity is that of exact differences, and does not hold of rounded ones; the order does, by `Rounding.RoundingDecidesAlike`.
- Timetags.EpsilonWindow: in exact reals; carried over by `Rounding.RoundingDecidesAlike`.
- Rounding.RoundingDecidesAlike: the differences of the 32-bit integers are taken to be exact, as they are in doubles.
- Messages.LoMessage.AddVarargs: requires a value of its type for every type character that takes one, which C cannot check; a NULL value, and a value that looks like a marker, are not modelled.
- Streams.Connection.RecvRaw: requires that the next packet fits, since another one hangs or blocks it as `Streams.LongerHangs` and `Streams.EmptyFrameBlocks` say; a failed or closed read, and the flag for more data after a read with a packet, are not modelled.
- Methods.MethodTable: where the matcher reads past the end of a pattern, its verdict is a parameter.
- Coercion.LoCoerce: the numeric value of a conversion is a parameter; types, sizes and layout do not depend on it.
- Over-reads of received bytes: the count of a blob with fewer than four bytes left, which is refused whatever it is, and the comparison with `#bundle` beyond the end of a packet, where bytes are taken not to match.
- The host is little-endian, and floats and doubles are the words that represent them.
- A packet is below 2^31 bytes, so that the `int` counters of the dispatch do not overflow.
- Memory of freed objects is a ghost state; the arrays a message or bundle grows into, with their capacity, are modelled only where data is copied (the element array of a bundle and the SLIP output are sequences).
- In the trace of a dispatch the delivery of a message is one event; `Loopback.MessageToHandler` composes it with the handlers for one message, not for whole bundles. Handlers do not call back into the server.
- Bundle start and end callbacks are taken to be installed; the reference a message holds while it is dispatched or queued is not counted.
- The `errno` distinction after a read without data, and the closing of sockets.
- The SLIP branch of the receive function and the detection of SLIP, which depends on the size of the first fragment.
- Sockets, polling, several connections at once and their context tables, name resolution, multicast, timeouts.
- Addresses and URLs, pretty printers, cloning, the server thread, the C++ wrapper and the tools.
- Replies to method enumeration (`src/server.c:1809-1872`), which end in a network send.
- Failing memory allocation.
