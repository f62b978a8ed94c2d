# servedservice RPC runtime, modelled in Dafny

servedservice is a small C# RPC runtime. A server registers service
instances under namespaces. Reflection builds a method table for each
instance, and a socket host hands each incoming request to a dispatcher. The
dispatcher reads the namespace and method name, decodes the protobuf
parameters, calls the method and answers with a one-byte status envelope. A
client-side proxy writes the request and decodes the envelope.

The repository carries two or three copies of most classes. Each behaviour
is modelled once, in the module named here:

| module | models |
|---|---|
| `LittleEndian` | `BinaryWriter.Write(int)` / `BinaryReader.ReadInt32`, and the unchecked `(int)` cast |
| `Codecs` | the protobuf codec, the string format of `BinaryWriter.Write(string)` and `Encoding.Default`, as records of functions with their round-trip hypotheses; the base-library exceptions |
| `Faults` | the exceptions the runtime raises and their messages |
| `ParamFrames` | `ServiceClient.SerializeParam`, and `MethodProxy.DeserializeParam` with its parameter extractor (the same code as `TypeDescription.MethodDescription`) |
| `Invoker` | `MethodProxy` / `MethodDescription`: the emitted wrapper and `Execute` |
| `MethodTable` | `ClassProxy` (src/Service/ClassProxy.cs) and `TypeDescription` (src/TypeDescription.cs) |
| `Dispatch` | `ServiceRegistry` (src/Service/ServiceRegistry.cs), plus the two `Servant` classes, which are the same dispatcher |
| `CallClient` | `ServiceClient.CallServiceMethod` and its generated proxy; the older `ServiceProxy.CallMethod` in src/ServiceProxy.cs and ServiceProxy.cs |
| `SegmentPool` | `BigBuffer` / `BufferSegment`, identical in all three hosts |
| `FrameParser` | `NetworkParser`, the length-prefix reassembler of NetworkHost, exactly as written |
| `Reassembler` | the framing `NetworkParser` evidently intends, with the properties the parser lacks proved |
| `ReceiveHost` | `NetworkHost` (src/Service/NetworkHost.cs, framed) and `ServerHost` (src/ServerHost.cs, unframed) |
| `AcceptHost` | the earlier `ServerHost` (ServerHost.cs), which binds a segment when an accept is posted |

Values are a type parameter `V`. Each lemma that needs the codec, the string
format or the text encoding to behave takes the corresponding predicate as a
`requires`: `RoundTrips`, `SelfDelimiting`, `TextRoundTrips` or
`OneBytePerChar`. A stream being read is modelled by its unread bytes. The
one exception is `NetworkParser`, whose content and cursor are modelled
exactly, because its behaviour depends on where each chunk lands.

In two places the repository's own description disagrees with the code, and
the model follows the code:
- The description says a later method of the same name replaces an earlier
  one. `ClassProxy` and `TypeDescription` use `Dictionary.Add`, which throws
  `DuplicateKey` (`MethodTable.DuplicateNameFails`).
- The description has the server detect every length-prefixed request.
  `NetworkParser` does not (see Findings).

## Model

| member | source | states |
|---|---|---|
| LittleEndian.Wrap | src/Client/ServiceClient.cs:79 | the `(int)` cast keeps the value modulo 2^32 and leaves every int32 unchanged |
| LittleEndian.DecodeEncode | src/Service/MethodProxy.cs:93-94 | `ReadInt32` returns the int32 that `Write(int)` put on the wire |
| LittleEndian.EncodeDecode | src/Service/NetworkHost.cs:81-82 | every four-byte pattern is the encoding of the int32 `ReadInt32` makes of it |
| ParamFrames.SerializeParam | src/Client/ServiceClient.cs:73-83 | the stream keeps its bytes, gains a four-byte length equal to the codec's byte count, then the codec bytes, and the cursor ends at the end |
| ParamFrames.SerializeAllAppendsFrames | src/Client/ServiceClient.cs:218-239 | the proxy's parameter stream is the arguments' sub-frames, in argument order |
| ParamFrames.DeserializeParam | src/Service/MethodProxy.cs:91-98 | fewer than four bytes raise end of stream; a negative length is rejected; otherwise exactly min(`length`, available) bytes are read without raising, the call succeeds iff the codec accepts those bytes, the rest of the stream follows them, and a codec failure is the call's failure |
| ParamFrames.DeserializeSerialize | src/Service/MethodProxy.cs:91-98 | a sub-frame written by SerializeParam is read back as the same value and consumes exactly its frame |
| ParamFrames.ExtractParams | src/Service/MethodProxy.cs:100-128 | one value per declared type; the rest of the stream is a suffix of the input; the first parameter's failure aborts the extraction |
| ParamFrames.ExtractConcat | src/Service/MethodProxy.cs:110-124 | extracting two runs of parameter types is extracting the first, then the second from where it stopped: values in declaration order, any failure aborting the whole extraction |
| ParamFrames.AbortsOnAnyFailure | src/Service/MethodProxy.cs:110-124 | a parameter that fails to decode after the earlier ones were read makes the whole extraction fail with its failure, so the method is not called |
| ParamFrames.ExtractFrames | src/Service/MethodProxy.cs:100-128 | the client's sub-frames decode to the same arguments in the same order, with trailing bytes left unread |
| Invoker.Invoke | src/Service/MethodProxy.cs:148-175 | fails exactly when the method throws, with its message; a void result writes nothing; any other result writes its codec bytes |
| Invoker.Execute | src/Service/MethodProxy.cs:39-68 | a failing parameter extraction is the call's error and the method is not run; otherwise the method is invoked on exactly the extracted arguments; a void call writes nothing |
| Invoker.ParameterlessIgnoresInput | src/Service/MethodProxy.cs:61-68 | a parameterless method never reads its input |
| Invoker.ExecuteDecodedArguments | src/Service/MethodProxy.cs:50-59 | fed the sub-frames of arguments of the declared types, the method is called with exactly those arguments |
| MethodTable.AddAll | src/Service/ClassProxy.cs:18-24 | succeeds iff no exposed name is repeated or already present, then holds every exposed method under its name and keeps earlier entries; otherwise raises DuplicateKey |
| MethodTable.Build | src/Service/ClassProxy.cs:15-25 | the table's keys are exactly the names of the public, instance, declared-here methods, each mapped to its method, unless two share a name |
| MethodTable.CallMethod | src/Service/ClassProxy.cs:32-37 | an unknown name raises "Unknow method name" |
| MethodTable.HasMethodIffExposed | src/Service/ClassProxy.cs:27-30 | HasMethod answers true iff some exposed method has that name |
| MethodTable.CallMethodOnBuiltTable | src/Service/ClassProxy.cs:32-37 | a known name runs that method's Execute |
| MethodTable.CallMissingOnBuiltTable | src/Service/ClassProxy.cs:34-35 | a name no exposed method has fails with UnknownMethod |
| MethodTable.DuplicateNameFails | src/Service/ClassProxy.cs:23 | two exposed methods with one name make construction throw instead of overwriting |
| Dispatch.AddClass | src/Service/ServiceRegistry.cs:57-62 | a used namespace raises "Namespace already used"; success iff the namespace is new and the table builds; on success only that namespace is added; on failure nothing changes |
| Dispatch.CallMethod | src/Service/ServiceRegistry.cs:50-55 | an unregistered namespace raises before any method lookup; a missing method raises UnknownMethod |
| Dispatch.ReadWrittenHeader | src/Service/ServiceRegistry.cs:27-29 | the namespace and method written by the client are read back, leaving the parameter bytes intact |
| Dispatch.FailureEnvelope | src/Service/ServiceRegistry.cs:38-44 | status 0 then the first message-length bytes of the encoded message; an encoding shorter than the message makes the write throw |
| Dispatch.ServeRequest | src/Service/ServiceRegistry.cs:23-48 | an unreadable header escapes; otherwise exactly one envelope, status 1 iff the call succeeded, followed by its output, or status 0 followed by the fault's message |
| Dispatch.FailureCarriesMessage | src/Service/ServiceRegistry.cs:41-43 | with one byte per character the failure envelope carries the whole message |
| Dispatch.UnknownNamespaceResponse | src/Service/ServiceRegistry.cs:23-55 | a request to an unregistered namespace gets status 0 and "Unknow namespace " + ns |
| Dispatch.UnknownMethodResponse | src/Service/ServiceRegistry.cs:23-48 | a request for a missing method of a registered namespace gets status 0 and "Unknow method name : " + name |
| Dispatch.RegisteredCallResponse | src/Service/ServiceRegistry.cs:23-48 | a well-formed call is answered with status 1 and the serialized result (nothing for void), or status 0 and the thrown message |
| Dispatch.DuplicateKeepsFirst | src/Service/ServiceRegistry.cs:57-62 | a second registration of a namespace fails and calls into it behave as before |
| Dispatch.RegisteredMethodIsCalled | src/Service/ServiceRegistry.cs:50-68 | after registration a call reaches the exposed method of that name |
| CallClient.FramedRequest | src/Client/ServiceClient.cs:87-101 | the request is a four-byte prefix, then namespace, method and parameter bytes; the prefix reads back as the request length minus 4 |
| CallClient.ProxyRequestDecodes | src/Client/ServiceClient.cs:206-245 | past its prefix, the generated proxy's request reads back as namespace, method and argument sub-frames, which decode to the arguments |
| CallClient.UnframedRequestDecodes | src/ServiceProxy.cs:67-78 | the older request reads back as namespace and method, followed by the raw codec bytes of the argument (none for null) |
| CallClient.ForwardedArgument | ServiceProxy.cs:129-149 | a parameterless method sends "<EMPTY>"; otherwise the first argument is sent |
| CallClient.TrailingArgumentsDropped | ServiceProxy.cs:129-139 | arguments after the first never reach the wire |
| CallClient.DecodeResponse | src/Client/ServiceClient.cs:103-113 | a remote error iff the first byte read is not 1, carrying the decoded message (annotated by ServiceClient); a value only by decoding the bytes after the status; default only for PlaceHolderType where the shortcut exists |
| CallClient.PayloadBounded | src/Client/ServiceClient.cs:103-104 | a response longer than the buffer is decoded from its first buffer-size bytes only |
| CallClient.SuccessEnvelopeDecodes | src/Client/ServiceClient.cs:108-113 | a success envelope that fits the buffer decodes to the value the server serialized |
| CallClient.VoidEnvelopeDecodes | src/Client/ServiceClient.cs:108-109 | the status byte alone yields default for a void call |
| CallClient.FailureEnvelopeDecodes | src/Client/ServiceClient.cs:105-107 | the dispatcher's failure envelope reaches the caller as a remote error with the server's message |
| CallClient.UnknownNamespaceSeenByClient | src/Client/ServiceClient.cs:85-114 | given the proxy's request body after its length prefix, a call to an unregistered namespace raises "Remote exception ns.method : Unknow namespace ns" at the client |
| SegmentPool.Layout | src/Service/NetworkHost.cs:95-98 | the stack holds segments at offsets 0, size, ..., with the last pushed on top |
| SegmentPool.NewBigBuffer | src/Service/NetworkHost.cs:91-99 | a negative wrapped buffer length raises; a zero length gives an empty stack; a positive size and count whose product fits an `int` give the full carving |
| SegmentPool.LayoutDisjoint | src/Service/NetworkHost.cs:94-98 | every carved segment lies inside the buffer and no two overlap |
| SegmentPool.Acquire | src/Service/NetworkHost.cs:101-106 | null iff the stack is empty; otherwise the top segment, and the stack loses exactly that one |
| SegmentPool.Release | src/Service/NetworkHost.cs:108-111 | the segment goes on top, and the stack gains exactly that one |
| SegmentPool.ReleaseThenAcquire | src/Service/NetworkHost.cs:101-111 | LIFO: the segment just released is the next one handed out |
| SegmentPool.AcquireThenRelease | src/Service/NetworkHost.cs:101-111 | releasing what was just acquired restores the pool |
| SegmentPool.LayoutDistinct | src/Service/NetworkHost.cs:95-98 | the carving has no segment twice |
| SegmentPool.FreshSound | src/Service/NetworkHost.cs:91-99 | a fresh carving is a sound stack |
| SegmentPool.AcquireSound | src/Service/NetworkHost.cs:101-106 | popping keeps the stack sound |
| SegmentPool.ReleaseSound | src/Service/NetworkHost.cs:108-111 | pushing back a carved segment that is not on the stack keeps it sound |
| FrameParser.Init | src/Service/NetworkHost.cs:61-65 | a new parser is at rest and empty |
| FrameParser.WriteAt | src/Service/NetworkHost.cs:71 | MemoryStream write: bytes under the chunk are replaced, bytes outside are kept, and any gap is zero-filled |
| FrameParser.Receive | src/Service/NetworkHost.cs:67-73 | the chunk is written at 0 unless a prefix is pending, else at the cursor; the received count grows by the chunk length, wrapped |
| FrameParser.ReadLength | src/Service/NetworkHost.cs:75-83 | only with no prefix and at least 4 bytes past a prefix is an int32 read at the cursor, and then it always is: it raises end of stream iff fewer than 4 bytes follow the cursor, and otherwise caches the decoded length and moves the cursor past it |
| FrameParser.MessageAvailable | src/Service/NetworkHost.cs:23-55 | reports true only when a known prefix is covered, with the cursor after the prefix; after a report it resets; with no prefix it rewinds and reads one, and when the request is not complete it raises iff Remaining is negative, and otherwise moves the cursor to Remaining and marks the parser split |
| FrameParser.Drain | src/Service/NetworkHost.cs:296-300 | at most one request per chunk is handed over, and the parser is back at rest after it |
| FrameParser.WholeFrameDetected | src/Service/NetworkHost.cs:37-52 | a whole request of at least 4 bytes in one chunk is reported once, and the parser then forgets the rest of the chunk |
| FrameParser.FirstRequestRead | src/Service/NetworkHost.cs:37-47 | on a fresh connection the handler reads exactly the request |
| FrameParser.ShortChunkFaults | src/Service/NetworkHost.cs:41-45 | a first chunk under 4 bytes moves the cursor below zero, which raises |
| FrameParser.ShortChunkStalls | src/Service/NetworkHost.cs:37-47 | a first chunk of 4 to 7 bytes leaves the parser split with no length |
| FrameParser.StallPersists | src/Service/NetworkHost.cs:28-36 | a stalled parser reports nothing for any chunk and stays stalled |
| FrameParser.Feed | src/Service/NetworkHost.cs:295-300 | a connection never reports more requests than it received chunks |
| FrameParser.StalledConnectionIsDead | src/Service/NetworkHost.cs:28-36 | no sequence of chunks ever revives a stalled connection |
| FrameParser.SplitContinuationLandsEarly | src/Service/NetworkHost.cs:44-71 | after a split first chunk of at least 8 bytes, the next chunk is written 4 bytes before the end of the received bytes |
| FrameParser.SplitFirstHalf | src/Service/NetworkHost.cs:37-47 | the parser state after the first 8 bytes of a 6-byte request |
| FrameParser.SplitSecondHalf | src/Service/NetworkHost.cs:28-36 | the report after the last 2 bytes, with 5, 6 written over 1, 2 |
| FrameParser.SplitFrameCorrupts | src/Service/NetworkHost.cs:28-47 | the request 1..6 sent as 8 bytes and then 2 is reported with the bytes 5, 6, 3, 4 |
| Reassembler.ExtractAppend | src/Service/NetworkHost.cs:23-83 | intended framing: appending bytes never disturbs requests already extracted |
| Reassembler.ExtractionStopsShort | src/Service/NetworkHost.cs:23-83 | intended framing: the leftover never starts with a whole request |
| Reassembler.Push | src/Service/NetworkHost.cs:67-73 | intended framing: the pending bytes never hold a whole undelivered request |
| Reassembler.FeedAllIsExtractAll | src/Service/NetworkHost.cs:23-83 | intended framing: chunk by chunk equals all bytes at once |
| Reassembler.ExtractEncoded | src/Service/NetworkHost.cs:23-83 | intended framing: back-to-back requests come out as exactly those requests |
| Reassembler.ReassembleAnyChunking | src/Service/NetworkHost.cs:23-83 | intended framing: however the bytes are chunked, every request is delivered once, whole and in order |
| ReceiveHost.Start | src/Service/NetworkHost.cs:173-187 | a fresh buffer with every segment free is a valid host |
| ReceiveHost.StartHost | src/Service/NetworkHost.cs:141-175 | Start carves 1000 segments of 1024 bytes, all free |
| ReceiveHost.Accept | src/Service/NetworkHost.cs:273-281 | a null segment raises iff all segments are held; otherwise the new connection takes the top segment (and a fresh parser) and the host stays valid |
| ReceiveHost.Received | src/Service/NetworkHost.cs:283-303 | zero bytes returns the segment and drops the connection; otherwise the unframed host hands over the chunk, and the framed one fails iff its parser does and else hands over the unread bytes of each request the parser reports and keeps the drained parser; the host stays valid |
| ReceiveHost.HeldSegmentsDisjoint | src/Service/NetworkHost.cs:230-249 | open connections receive into disjoint windows inside the buffer |
| ReceiveHost.Run | src/Service/NetworkHost.cs:251-271 | any run of completions keeps the segment accounting valid |
| ReceiveHost.RunKeepsSegmentsDisjoint | src/Service/NetworkHost.cs:230-249 | in every reachable state, open connections use disjoint windows |
| ReceiveHost.AcceptThenCloseRestores | src/Service/NetworkHost.cs:241-249 | a connection closed right after accept leaves the pool as it was |
| ReceiveHost.FirstChunkRequestDelivered | src/Service/NetworkHost.cs:283-300 | a whole request in a connection's first chunk reaches the handler exactly |
| AcceptHost.Post | ServerHost.cs:119-132 | a new pending accept holding the top free segment or null; the host stays valid |
| AcceptHost.PostMany | ServerHost.cs:99-102 | n posts add n pending accepts; they take min(n, free) segments up front, so the free stack shrinks to max(free - n, 0) and as many more objects hold a segment |
| AcceptHost.Start | ServerHost.cs:89-103 | the backlog of pending accepts (none for a non-positive backlog) on a valid host; min(backlog, segment count) of them hold a segment from the start, and the rest of the carving stays free |
| AcceptHost.Accepted | ServerHost.cs:158-163 | raises iff the completed accept holds null; otherwise the replacement is posted first and takes the top free segment (or null), the completed object starts receiving into its own segment on the next socket, no other object changes, and the number of pending accepts is kept |
| AcceptHost.Received | ServerHost.cs:165-177 | zero bytes returns the segment and drops the object; otherwise the chunk is handed over as it arrived |
| AcceptHost.RefusedWhileSegmentFree | ServerHost.cs:119-163 | with one segment and a backlog of two, a connection is refused while the segment is free |

## Left out

- Sockets, asynchronous completion and sending: each OS completion is an event of `ReceiveHost.Run`. In src/ServerHost.cs and src/Service/NetworkHost.cs the synchronous-completion path of `ReceiveAsync`/`AcceptAsync` does the same work inline and is not modelled separately.
- AcceptHost: ServerHost.cs:121, 162 and 176 ignore the return value of `AcceptAsync`/`ReceiveAsync`. An accept or receive that completes synchronously is never processed there: no replacement accept is posted and the event-argument object keeps its segment for good. The model treats every operation as completing asynchronously, so it does not show that drop.
- Concurrency: the stacks, the object pools and the parser map are used from several threads. The model is sequential.
- Reflection.Emit and IL generation: the emitted code is modelled by its observable behaviour (`Invoker`). `FastActivator` is not part of this model.
- protobuf-net, `BinaryWriter.Write(string)` and `Encoding.Default` are abstract parameters. Only the round-trip properties the runtime relies on are assumed, and only where a lemma requires them.
- `NamespaceDictionary` is not part of this model. The two `Servant` classes are modelled as if it were the `Dictionary` that `ServiceRegistry` uses.
- src/ServiceProxy.cs:176 uses an undefined `inputType`, so that generated proxy does not compile. Its forwarding is modelled from ServiceProxy.cs.
- Disposal: `ServiceRegistry.ServeRequest` wraps the parser in a `using BinaryReader`, which disposes the parser stream. A later use of that parser on the same connection would raise; the model keeps using it.
- ReceiveHost.Received: delivers the parser's unread bytes from the cursor right after the prefix. `ServeRequest` rewinds to position 0 and reads the namespace from there, so on NetworkHost it would read the length prefix as string bytes. The model states no end-to-end claim for the framed host; the end-to-end lemmas start from the request body.
- SegmentPool.NewBigBuffer: a positive buffer length that comes out of wrap-around is returned as `UnsupportedShape` rather than modelled. This covers a non-positive size or count (for instance both negative), and also a positive size and count whose product overflows an `int`: 65537 by 65536 wraps to a buffer of 65536 bytes, and the source pushes one segment (0, 65537) that runs past its end.
- ReceiveHost.Accept: src/Service/NetworkHost.cs:277 stores the new connection's parser in `_parserBySocket` before the receive operation is created, and that creation raises on a null segment (src/Service/NetworkHost.cs:234-236). The parser left in the map for a connection that never receives is not modelled: the `Err` result carries no host state.
- Dispatch.FailureEnvelope: .NET's `String.Length` counts UTF-16 code units, but the model takes a message's length as its number of Unicode characters (`|msg|`). The two agree for messages of Basic Multilingual Plane characters only. For a message with a character outside that plane, the source writes one byte more per such character than the model does, and under a single-byte code page that `Write` can overrun and escape where the model sends the envelope.
- CallClient.DecodeResponse: assumes the whole response is available to the single `Stream.Read`. A partial read, and response bytes left in the stream for the next call, are not modelled.
- The `CacheResult` attribute and the example programs are outside the runtime core.

## Findings

| source | as written | input that shows it | evidently intended | confidence | as-written member | corrected member |
|---|---|---|---|---|---|---|
| src/Service/NetworkHost.cs:41-45 | with no complete request, the cursor is set to `Remaining`, which is `received - 4` | a first chunk of 3 bytes: the cursor is set to -1 and the setter throws | short chunks wait for more bytes | not executed | FrameParser.ShortChunkFaults | Reassembler.FeedAllIsExtractAll |
| src/Service/NetworkHost.cs:37-47 | the length is read only once 8 bytes have arrived, yet the parser is then marked split and the split branch never reads the length | the 2-byte request 1, 2 (6 bytes on the wire) stalls the connection for good | every request is detected, however short | not executed | FrameParser.ShortChunkStalls | Reassembler.ReassembleAnyChunking |
| src/Service/NetworkHost.cs:44-45 | a split request's next chunk is written at `received - 4`, 4 bytes before the end of what arrived | the request 1..6 sent as 8 bytes then 2 is reported as 5, 6, 3, 4 | the continuation is appended after the bytes already received | not executed | FrameParser.SplitFrameCorrupts | Reassembler.ReassembleAnyChunking |
| src/Service/NetworkHost.cs:48-52 | after a report the counters reset and the next chunk is written at 0, so the rest of the chunk is lost | two 4-byte requests in one chunk: only the first is reported | bytes after a request are kept for the next one | not executed | FrameParser.WholeFrameDetected | Reassembler.ExtractAppend |
| ServerHost.cs:124-132 | the segment is taken when an accept is posted, not when it completes | one segment, backlog 2: after the first connection closes, accepting on the second pending accept raises a null reference although the segment is free | a connection takes a segment when it is accepted, and fails only when none is free | not executed | AcceptHost.RefusedWhileSegmentFree | ReceiveHost.Accept |
