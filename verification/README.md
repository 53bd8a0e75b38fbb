# Verified model of the V8 execution plane

Dafny models of the parts of the agent-os execution plane that carry state, bytes or arithmetic, and
proofs of what those parts are for. `dafny verify dfyconfig.toml` checks everything.

What is modelled, bottom up:

* **Frames** (`Wire`, `Utf8Text`, `IpcFormat`, `V8Ipc`, `IpcBytes`). The length-prefixed binary format between the host
  and the V8 runtime process. `IpcFormat` says which byte strings are which frame; `V8Ipc` is the codec as
  the program runs it, one growing buffer and one moving cursor, proved against that; `IpcBytes` spells the
  format out in literal bytes. The runtime has its own implementation of the same format with one more
  frame; both sides are covered.
* **Streams and sessions** (`FrameStream`, `SessionHost`). Many session handles write whole frames behind
  one lock; a reader thread reads frames and routes them to per-session channels while sessions come and go.
  The results compose: from the frames the runtime sent, through bytes, to what each channel holds.
* **Python file-system calls** (`PythonRpc`, `PythonRpcRuns`, `PythonSession`). The host's answers and one timer
  thread per request race for a one-place slot, above the inner JavaScript engine's own slot, and the runtime
  hands each call the first response that arrives for it. All interleavings of the single locks.
* **Resumable benchmark runs** (`AtomicFile`, `BenchmarkRun`, with `LineBuffer`, `Statistics` and `ControlMatrix`). A
  checkpoint file replaced after every stage, attempts that may fail or die anywhere, and the report.
* **Encoders and hashes** (`Json`, `Hexadecimal`, `StableHash`). JSON strings, arrays and ordered maps
  against a reader for RFC 8259; 64-bit FNV-1a and the marker files named by it.
* **DEFLATE primitives** (`BitString`, `BitStream`, `Huffman`, `HuffmanTree`, `HuffmanTable`, `InflateTable`,
  `InflateSize`, `InflateBuilder`, `InflateSymbols`, `Adler`) of the zlib code that is bundled into every session: bit writer and
  reader, canonical codes, the two-level decode tables of all three alphabets, Adler-32.
* **Process trees** (`ProcessTree`). The memory of a process and its descendants.

How the concurrent parts are modelled: every critical section is one step of a state machine, a run is
any sequence of steps, and the theorems are about all runs. The classes perform the same steps on
fields and are proved to take exactly those steps. The writer's locked `write_all` and `flush` is one step.

Where the code does not do what its wording suggests:

* `respond_vfs_rpc_success` and `respond_vfs_rpc_error` refuse an answer that "is no longer pending" only
  if the slot holds a timeout of the same request. Every other answer passes both layers, because no
  production code times the inner slot out, so two bridge responses can be written for one request
  (`PythonRpcRuns.AnsweringTwiceWritesTwice`). `PythonRpc.OneResponseWrittenIffAnsweredInSlot` gives the exact
  condition for one. The guest never gets two: the runtime drops every response after the
  first (`PythonRpc.GuestGetsTheFirst`).
* A new request replaces a pending one, which then has no winner. This can happen even to a guest that waits for
  every answer, when the host answers past the Python slot (`PythonRpcRuns.ReplacedRequestHasNoWinner`).
  `PythonRpc.AllDecidedIffSequential` gives the exact condition under which every request is decided, and
  `PythonRpc.WaitingGuest` shows that a waiting guest and a host that answers in the slot meet it.
* `percentile` returns a value for every `p`, but one of nearest rank only for 0 < p <= 100
  (`Statistics.NearestRankIffInRange`).
* The four-byte lengths in a frame are cast without a check. This is harmless only because of the size
  limit, which is checked after they are written (`IpcFormat.SizeLimitMakesCastsExact`).

## Model

| member | source | states |
|---|---|---|
| `IpcFormat.DecodeExact` | crates/execution/src/v8_ipc.rs:130-273 | a body is read as a frame if and only if it is one of the layouts of that frame (ignored session id, unused flag bits, trailing bytes) and every length in it fits its field; nothing else is accepted |
| `IpcBytes.BodyIsDocumented` | crates/execution/src/v8_ipc.rs:277-415 | the body of each of the thirteen frames, written out in literal bytes: type code, session id behind its length, and every field in its order, width, byte order and flag bit |
| `IpcBytes.EncodeIsDocumented` | crates/execution/src/v8_ipc.rs:113-127 | what encoding returns in those bytes: an error for a string too long for its length field, then for a body of more than 67108864 bytes, else the four-byte length and the body |
| `IpcBytes.DocumentedIsRead` | crates/v8-runtime/src/ipc_binary.rs:351-501 | each side that knows the frame reads its documented body back |
| `IpcBytes.HeaderErrors` | crates/execution/src/v8_ipc.rs:130-273 | which error each way of a wrong header gives: no byte, no length, an id cut off, an id that is no text, a type code that is not known |
| `IpcFormat.EncodeDecode` | crates/execution/src/v8_ipc.rs:113-127 | whenever a frame is encoded: the prefix is the body length, the body is within 64 MiB, no length cast lost bits, and both implementations that know the frame read it back |
| `IpcFormat.EncodeInjective` | crates/execution/src/v8_ipc.rs:277-415 | two frames with the same encoding are the same frame |
| `IpcFormat.DecodeEncode` | crates/execution/src/v8_ipc.rs:130-273 | every accepted body of at most 64 MiB can be encoded again, never longer than it was, and is read as the same frame again |
| `IpcFormat.EncodableIffDecodable` | crates/execution/src/v8_ipc.rs:113-127 | a frame can be sent exactly if some body within the size limit is read as it |
| `IpcFormat.SizeLimitMakesCastsExact` | crates/execution/src/v8_ipc.rs:306-325 | the size limit alone makes the unguarded four-byte casts exact |
| `IpcFormat.TightIsShortest` | crates/execution/src/v8_ipc.rs:277-415 | what the encoder writes is the shortest of all layouts of the frame |
| `IpcFormat.DecodeOfLayout` | crates/v8-runtime/src/ipc_binary.rs:351-501 | every layout of a frame is read as that frame, on both sides |
| `IpcFormat.DecodeInverse` | crates/v8-runtime/src/ipc_binary.rs:351-501 | an accepted body is a layout of the frame it is read as, and the frame passes every guard of the encoder |
| `IpcFormat.SidesAgree` | crates/v8-runtime/src/ipc_binary.rs:351-501 | host and runtime decoders differ on warm-snapshot bodies only, which the host refuses |
| `IpcFormat.ExtractRefinesDecode` | crates/v8-runtime/src/ipc_binary.rs:175-196 | on every body that is a frame the header-only session lookup finds the session the full decoder finds |
| `IpcBytes.ExtractIs` | crates/v8-runtime/src/ipc_binary.rs:175-196 | the header lookup in bytes: none for the two frames without a session, otherwise exactly the bytes its length byte covers, and its one error |
| `Wire.FromBeOfBe` | crates/execution/src/v8_ipc.rs:463-470 | big-endian reading undoes big-endian writing of numbers that fit |
| `Wire.BeOfFromBe` | crates/execution/src/v8_ipc.rs:463-470 | big-endian writing undoes reading, for all byte strings |
| `Utf8Text.ValidIffText` | crates/execution/src/v8_ipc.rs:491-499 | the bytes accepted as text are exactly the UTF-8 encodings of sequences of Unicode scalar values, each of exactly one |
| `V8Ipc.WriteSessionId` | crates/execution/src/v8_ipc.rs:419-430 | appends the one-byte length and the id, or fails without writing if the id has more than 255 bytes |
| `V8Ipc.WriteLenPrefixedU16` | crates/execution/src/v8_ipc.rs:432-443 | appends the two-byte length and the string, or fails without writing if it has more than 65535 bytes |
| `V8Ipc.WriteExecute` | crates/execution/src/v8_ipc.rs:306-325 | appends the fields of the format; fails exactly on a path that is too long |
| `V8Ipc.WriteExecutionResult` | crates/execution/src/v8_ipc.rs:365-392 | appends the fields of the format with the flags of the optional parts; fails exactly if an error string is too long |
| `V8Ipc.EncodeBody` | crates/execution/src/v8_ipc.rs:277-415 | appends the body the format gives the frame; fails exactly if a guard does not pass |
| `V8Ipc.EncodeFrame` | crates/execution/src/v8_ipc.rs:113-127 | the buffer with its first four bytes patched is the encoding of the format, with the same errors |
| `V8Ipc.Cursor.ReadU8` | crates/execution/src/v8_ipc.rs:445-452 | reads one byte and stays within the buffer |
| `V8Ipc.Cursor.ReadU16` | crates/execution/src/v8_ipc.rs:454-461 | reads two bytes big-endian and stays within the buffer |
| `V8Ipc.Cursor.ReadU32` | crates/execution/src/v8_ipc.rs:463-470 | reads four bytes big-endian and stays within the buffer |
| `V8Ipc.Cursor.ReadI32` | crates/execution/src/v8_ipc.rs:472-479 | reads four bytes as two's complement and stays within the buffer |
| `V8Ipc.Cursor.ReadU64` | crates/execution/src/v8_ipc.rs:481-489 | reads eight bytes big-endian and stays within the buffer |
| `V8Ipc.Cursor.ReadUtf8Bytes` | crates/execution/src/v8_ipc.rs:491-499 | reads that many bytes if they are there and are UTF-8 |
| `V8Ipc.Cursor.ReadRaw` | crates/execution/src/v8_ipc.rs:501-508 | reads that many bytes if they are there |
| `V8Ipc.Cursor.ReadLenPrefixedU16` | crates/execution/src/v8_ipc.rs:510-513 | reads a string behind its two-byte length |
| `V8Ipc.DecodeExecuteAt` | crates/execution/src/v8_ipc.rs:130-273 | the cursor code for Execute reads what the format reads |
| `V8Ipc.DecodeExecutionResultAt` | crates/execution/src/v8_ipc.rs:130-273 | the cursor code for ExecutionResult reads what the format reads, optional parts by flag |
| `V8Ipc.DecodeFieldsAt` | crates/execution/src/v8_ipc.rs:130-273 | every arm of the decoder reads what the format reads |
| `V8Ipc.DecodeFrame` | crates/execution/src/v8_ipc.rs:130-273 | total on all byte strings, the cursor never leaves the buffer; returns a frame exactly if the body is a layout of it, an error exactly if it is a layout of none |
| `FrameStream.ReadFrameOfEncoded` | crates/execution/src/v8_host.rs:253-266 | a frame in front of any bytes is read back and exactly its bytes are consumed |
| `FrameStream.ReadFrameExact` | crates/execution/src/v8_host.rs:253-266 | a frame is read if and only if the stream starts with the length of a body within the limit and that body, and the body is read as the frame; every frame read can be sent on |
| `FrameStream.ReadFrameErrors` | crates/execution/src/v8_host.rs:253-266 | a missing length or body is an early end; a length above 67108864 is refused whether or not the body is there |
| `FrameStream.ReadAllOfStream` | crates/execution/src/v8_host.rs:253-266 | reading undoes writing for any number of frames, whatever follows |
| `FrameStream.ReadFrameOfCut` | crates/execution/src/v8_host.rs:253-266 | a proper prefix of a frame is an early end, never another frame and never a size error |
| `FrameStream.ReadAllOfCutStream` | crates/execution/src/v8_host.rs:253-266 | a stream cut at any byte yields exactly the completely written frames and then the end of the stream |
| `FrameStream.WrittenIsStream` | crates/execution/src/v8_host.rs:132-137 | any sequence of locked sends leaves the encodings of the accepted frames, in lock order |
| `FrameStream.DeliveredKeepsOrder` | crates/execution/src/v8_host.rs:132-137 | the frames of one sender stay in its own order; only those that cannot be encoded are missing |
| `FrameStream.InterleavedSends` | crates/execution/src/v8_host.rs:185-225 | for every interleaving of any number of senders behind the authentication frame the peer reads exactly the accepted frames in lock order up to the end, each sender in its own order, and never hits the size limit |
| `FrameStream.SharedWriter.SendFrame` | crates/execution/src/v8_host.rs:132-137 | appends one whole encoding, or nothing and the encoder's error |
| `FrameStream.V8SessionHandle.SendBridgeResponse` | crates/execution/src/v8_host.rs:185-201 | appends one bridge response of this session, or nothing if it cannot be encoded |
| `FrameStream.V8SessionHandle.SendStreamEvent` | crates/execution/src/v8_host.rs:204-214 | appends one stream event of this session, or nothing if it cannot be encoded |
| `FrameStream.V8SessionHandle.Terminate` | crates/execution/src/v8_host.rs:217-225 | appends one termination frame of this session, or nothing if it cannot be encoded |
| `FrameStream.FrameReader.ReadExact` | crates/execution/src/v8_host.rs:253-266 | takes exactly that many bytes or reports the end |
| `FrameStream.FrameReader.ReadOne` | crates/execution/src/v8_host.rs:253-266 | reads one frame as the stream specification does, with its size limit and its errors |
| `SessionHost.RoutedIffFromRuntime` | crates/execution/src/v8_host.rs:243-251 | a frame has a routing session exactly if its type code is one of the runtime's own, and it is the session it names |
| `SessionHost.StepConserves` | crates/execution/src/v8_host.rs:80-102 | one step of anyone moves frames from what a channel is still to receive into the channel, and from nowhere else |
| `SessionHost.RunConserves` | crates/execution/src/v8_host.rs:80-102 | from any state and over any run every channel ends up with what it holds and what it is still to receive |
| `SessionHost.RunCreates` | crates/execution/src/v8_host.rs:114-129 | the channels a run creates hold exactly what the outside view of the run gives each registration |
| `SessionHost.ChannelContents` | crates/execution/src/v8_host.rs:80-102 | in every run of registrations, unregistrations and reader turns over any input bytes, each channel is exactly the subsequence of its session's frames that arrived while it was the registered one |
| `SessionHost.EndToEnd` | crates/execution/src/v8_host.rs:80-102 | the same from the frames the runtime sent, through encoding, stream and decoding |
| `SessionHost.SilentAfterFailure` | crates/execution/src/v8_host.rs:93-99 | after the reader has failed no channel grows, nor one registered later |
| `SessionHost.V8RuntimeHost.RegisterSession` | crates/execution/src/v8_host.rs:114-121 | a fresh empty channel takes the session over |
| `SessionHost.V8RuntimeHost.UnregisterSession` | crates/execution/src/v8_host.rs:124-129 | the session has no sender any more, nothing else changes |
| `SessionHost.V8RuntimeHost.ReaderStep` | crates/execution/src/v8_host.rs:83-100 | one round of the loop is one reader step; on any error all senders are dropped and the loop ends |
| `SessionHost.V8RuntimeHost.ReaderLoop` | crates/execution/src/v8_host.rs:80-102 | left alone the loop ends, every channel has received exactly what it was to receive, and no sender is left |
| `PythonRpc.StepKeepsInv` | crates/execution/src/python.rs:585-603 | every step of guest, host, event loop, timers and runtime keeps the accounts of every request: issued once, then pending, won once or replaced; every win and stray answer written once; the guest holding the first response since its call and nothing else |
| `PythonRpc.RunKeepsInv` | crates/execution/src/python.rs:1140-1171 | so does every run |
| `PythonRpc.AtMostOneWinner` | crates/execution/src/python.rs:1146-1155 | whatever the host and the timers do, a request is issued at most once and won at most once |
| `PythonRpc.DecidedIffNotReplaced` | crates/execution/src/python.rs:783-792 | a request whose timer has run has exactly one winner if and only if no later request replaced it while it was pending |
| `PythonRpc.SequentialReplacesNothing` | crates/execution/src/python.rs:617-628 | nothing is replaced if and only if no request is issued while another is pending |
| `PythonRpc.AllDecidedIffSequential` | crates/execution/src/python.rs:617-628 | when everything has settled, every request has exactly one winner if and only if no two requests were pending at once |
| `PythonRpc.NoStraysIffAnsweredInSlot` | crates/execution/src/python.rs:353-366 | stray answers to a request are counted exactly if some answer to it does not find it in the slot |
| `PythonRpc.OneResponseWrittenIffAnsweredInSlot` | crates/execution/src/python.rs:418-437 | exactly one bridge response is written for a decided request if and only if the host answers it only while it is in the slot |
| `PythonRpc.GuestGetsTheFirst` | crates/v8-runtime/src/main.rs:236-254 | in every run, whatever stray answers the host gives, the guest gets exactly the first response read since its call was made, so never two, and waits exactly as long as there is none |
| `PythonRpc.DecidedRequestIsAnswered` | crates/v8-runtime/src/main.rs:236-254 | when everything has settled, a request that was not replaced has been answered exactly once |
| `PythonRpc.EveryRequestIsAnsweredOnce` | crates/v8-runtime/src/host_call.rs:208-275 | in every settled run without overlapping requests each request has been answered exactly once, whatever else the host answers |
| `PythonRpc.TheWinnerAnswers` | crates/execution/src/python.rs:1140-1171 | if the host answers a request only while it is in the slot, the guest gets the response of the side that won it |
| `PythonRpc.WaitingGuest` | crates/v8-runtime/src/host_call.rs:208-275 | a guest that waits for each answer, with such a host, never has two requests pending; each is won once and answered by its winner |
| `PythonRpc.StaleTimerChangesNothing` | crates/execution/src/python.rs:1146-1159 | a timer whose request is not the pending one changes nothing but itself |
| `PythonRpc.LateAnswersAreRefused` | crates/execution/src/python.rs:359-364 | after a timeout every answer through the Python slot is refused and changes nothing until a new request is issued |
| `PythonRpc.InnerRefusesLateAnswers` | crates/execution/src/javascript.rs:988-994 | were the inner slot timed out, no answer to its call would get past it until another call arrives |
| `PythonRpcRuns.AnsweringTwiceWritesTwice` | crates/execution/src/javascript.rs:983-1020 | a run in which two responses to one request are written, of which the guest gets one |
| `PythonRpcRuns.ReplacedRequestHasNoWinner` | crates/execution/src/python.rs:439-458 | a run of a waiting guest in which an answer past the Python slot leaves a request pending and the next one replaces it: it has no winner |
| `PythonSession.PythonExecution.NoteBridgeCall` | crates/execution/src/javascript.rs:1833-1836 | is the step in which a call arrives |
| `PythonSession.PythonExecution.IssueRequest` | crates/execution/src/python.rs:619-628 | is the issue step: slot set, timer started |
| `PythonSession.PythonExecution.ClearPendingVfsRpc` | crates/execution/src/python.rs:585-603 | is the first step of an answer: empties the slot only of its own pending request and says how it found it |
| `PythonSession.PythonExecution.ClearPendingSyncRpc` | crates/execution/src/javascript.rs:1095-1115 | is the second step of an answer; it never finds a timeout |
| `PythonSession.PythonExecution.SendAnswer` | crates/execution/src/javascript.rs:1000-1002 | is the third step of an answer: one whole response is appended |
| `PythonSession.PythonExecution.RespondInner` | crates/execution/src/javascript.rs:983-1020 | takes the second and third step, and never refuses |
| `PythonSession.PythonExecution.RespondVfsRpc` | crates/execution/src/python.rs:353-366 | takes the three steps in order if no other thread comes in between; refused exactly on a timed-out slot, and then nothing changes |
| `PythonSession.PythonExecution.RespondJavascriptSyncRpc` | crates/execution/src/python.rs:439-458 | takes the three steps without a look at the Python slot, and never refuses |
| `PythonSession.PythonExecution.TimerWakes` | crates/execution/src/python.rs:1146-1159 | is the timer step; it touches the slot only if its own request is pending there |
| `PythonSession.PythonExecution.TimerReports` | crates/execution/src/python.rs:1161-1169 | is the write of a timer that took the slot |
| `PythonSession.CallIdRouter.TakeId` | crates/v8-runtime/src/host_call.rs:207-207 | an id that no call of any session has, taken or routed; no session's view changes |
| `PythonSession.CallIdRouter.InsertRoute` | crates/v8-runtime/src/host_call.rs:217-223 | the route for a taken id, in any order among the sessions: the call step of its session, and nothing for any other |
| `PythonSession.CallIdRouter.RouteResponse` | crates/v8-runtime/src/main.rs:236-254 | the response goes to the session its id leads to, and the id leads nowhere afterwards; for every session this is the routing step |
| `BenchmarkRun.PersistedIs` | crates/execution/src/benchmark.rs:1825-1846 | what a new attempt takes from a compatible file: every stored stage that is still defined, the transport only with the expected payloads |
| `BenchmarkRun.TakesLastStored` | crates/execution/src/benchmark.rs:1813-1846 | what a new attempt takes for a definition, from the stored entries: the last one of its id, if version 5, configuration, host and root are its own |
| `BenchmarkRun.TakesStoredTransport` | crates/execution/src/benchmark.rs:1825-1835 | the stored round trips are taken if the file is of this run and they are of 32, 4096 and 65536 bytes, in this order |
| `BenchmarkRun.PickInOrder` | crates/execution/src/benchmark.rs:1837-1846 | the stored scenarios that are kept are in definition order, each of a definition |
| `BenchmarkRun.PersistedNeedsCompatibleFile` | crates/execution/src/benchmark.rs:1523-1541 | a file that is missing, unreadable, no run state or of another run gives nothing |
| `BenchmarkRun.LastOfRecord` | crates/execution/src/benchmark.rs:1869-1873 | recording replaces one measurement and touches no other |
| `BenchmarkRun.RecordAppends` | crates/execution/src/benchmark.rs:1869-1873 | a new result goes to the end, behind all others unchanged |
| `BenchmarkRun.ScenariosRun` | crates/execution/src/benchmark.rs:2037-2045 | the scenarios an attempt runs are a prefix of the missing ones, all of them if it completes |
| `BenchmarkRun.AttemptKeeps` | crates/execution/src/benchmark.rs:2006-2053 | an attempt that fails, dies or finishes anywhere keeps every persisted result unchanged and runs no stage that has one |
| `BenchmarkRun.NeverRunAgain` | crates/execution/src/benchmark.rs:2006-2053 | over any sequence of attempts: once a result is in the file it stays and no later attempt runs the stage, until an attempt has finished and removed the file |
| `BenchmarkRun.CleanUpStartsOver` | crates/execution/src/benchmark.rs:1984-1998 | after an attempt has finished and removed the file nothing is taken from it, and an attempt that finishes runs every stage |
| `BenchmarkRun.AttemptPersists` | crates/execution/src/benchmark.rs:1543-1574 | a stage that ran and whose result was saved is persisted with exactly that result, whatever becomes of the attempt |
| `BenchmarkRun.FinishedAttempt` | crates/execution/src/benchmark.rs:1875-1909 | the finishing attempt reports one scenario per definition in definition order, each with the persisted measurement, and the persisted transport results; it ran exactly stages the file did not hold; resumed plus run is 1 plus the number of definitions |
| `BenchmarkRun.FinishesIff` | crates/execution/src/benchmark.rs:2006-2053 | an attempt finishes if and only if there are iterations, the directory is there, the file is missing or can be read, whatever it holds, and every stage without a persisted result returns one and is saved |
| `BenchmarkRun.StagesInOrder` | crates/execution/src/benchmark.rs:2030-2045 | the stages that run are in the order transport, then definitions; every one but the last works, and the last does exactly if the attempt finishes |
| `BenchmarkRun.MissingAndStored` | crates/execution/src/benchmark.rs:1848-1854 | the resumed-stage count and the missing stages add up to all stages |
| `BenchmarkRun.ReportKeepsEarlierResults` | crates/execution/src/benchmark.rs:1875-1909 | a measurement persisted before any number of attempts is in the report of whichever attempt finishes |
| `AtomicFile.WriteStringAtomic` | crates/execution/src/benchmark.rs:1551-1574 | whatever operation fails and wherever the process dies, the name holds what it held before or the whole of the new contents; an error means what it held before; only the temporary name can keep a part, and no other entry changes |
| `AtomicFile.TempNamesDiffer` | crates/execution/src/benchmark.rs:1556-1566 | two replacements of a file at different times use different temporary names |
| `BenchmarkRun.StateFile.Replace` | crates/execution/src/benchmark.rs:1544-1549 | in those terms the state file holds the old or the new state, and the attempt goes on exactly if nothing went wrong |
| `BenchmarkRun.RunRemaining` | crates/execution/src/benchmark.rs:2037-2045 | the loop over the definitions is the specification's pass |
| `BenchmarkRun.Orchestrate` | crates/execution/src/benchmark.rs:2006-2053 | the whole attempt leaves the file, the stages run and the report of the specification |
| `BenchmarkRun.ScenariosAreDistinct` | crates/execution/src/benchmark.rs:2055-2352 | the program's own 21 definitions have the distinct ids the results above ask for |
| `LineBuffer.SplitIsExact` | crates/execution/src/benchmark.rs:2784-2789 | lines and remainder put together are the text; no line and no remainder holds a line feed |
| `LineBuffer.SplitAppend` | crates/execution/src/benchmark.rs:2784-2789 | a text splits the same whether its front is split first or not |
| `LineBuffer.RunConserves` | crates/execution/src/benchmark.rs:2736-2751 | however a text is cut into chunks and whenever lines are taken, lines taken and lines left are those of the whole text |
| `LineBuffer.StdoutBuffer.TakeCompleteLine` | crates/execution/src/benchmark.rs:2784-2789 | takes the text before the first line feed without trailing carriage returns, or nothing if there is no line feed |
| `LineBuffer.DrainChunks` | crates/execution/src/benchmark.rs:2736-2751 | draining after every chunk gives the lines and the remainder of the whole text |
| `Statistics.SortSorts` | crates/execution/src/benchmark.rs:3106-3108 | sorted, and a permutation of the samples |
| `Statistics.PercentileIsNearestRank` | crates/execution/src/benchmark.rs:3180-3188 | the result is a sample with at least p percent of the samples at most it and fewer than p percent below it |
| `Statistics.NearestRankIffInRange` | crates/execution/src/benchmark.rs:3180-3188 | it is one if and only if 0 < p <= 100 |
| `Statistics.PercentileOutside` | crates/execution/src/benchmark.rs:3180-3188 | outside that range: 0 for no samples, the least sample for p <= 0, the greatest for p > 100 |
| `Statistics.PercentileExact` | crates/execution/src/benchmark.rs:3180-3188 | the result is the only value of nearest rank, so the order of the samples does not matter |
| `Statistics.StatsOrdered` | crates/execution/src/benchmark.rs:3106-3119 | min <= mean <= max and min <= p50 <= p95 <= max; the ends are samples and bound all samples |
| `Statistics.StatsExact` | crates/execution/src/benchmark.rs:3106-3119 | mean times count is the total, and p50 and p95 are the values of nearest rank 50 and 95 |
| `Statistics.StatsOfNothing` | crates/execution/src/benchmark.rs:3106-3119 | no samples give zeros, and a mean that is no number |
| `ControlMatrix.BuildControlMatrix` | crates/execution/src/benchmark.rs:859-880 | one row for each workload in the order they first appear; a row lists exactly the runtimes and the modes of its workload's scenarios, in the order they first appear, and their ids in the order given; an index entry for every workload leads to its row; and the rows are the group-by that does not know the index |
| `ControlMatrix.RowsPartition` | crates/execution/src/benchmark.rs:859-880 | the rows together hold every scenario id exactly as often as it was given |
| `ControlMatrix.ScenarioIsInItsRow` | crates/execution/src/benchmark.rs:859-880 | every scenario is in exactly one row: the one of its workload |
| `ControlMatrix.DistinctKeepsOrder` | crates/execution/src/benchmark.rs:3268-3272 | labels without duplicates are in the order they were first seen |
| `Json.StringRoundTrip` | crates/execution/src/common.rs:53-75 | the encoding of any string in front of any text is read back by an RFC 8259 reader as that string and that text |
| `Json.EncodingIsPlain` | crates/execution/src/common.rs:66-69 | the encoding holds no control character and nothing outside the basic multilingual plane |
| `Json.EscapesAre` | crates/execution/src/common.rs:53-75 | the seven short escapes, and exactly which characters stand for themselves |
| `Json.KnownEscapes` | crates/execution/src/common.rs:66-82 | the escapes of U+001B and U+1F600, four lower-case digits a unit, high surrogate first |
| `Json.RoundTrip` | crates/execution/src/common.rs:23-51 | so are arrays of strings and objects |
| `Json.EntriesAreUnique` | crates/execution/src/common.rs:37-40 | a map has one sequence of entries in key order |
| `Json.LessIs` | crates/execution/src/common.rs:37-40 | the key order is the lexicographic order of code points: at the first difference, or a proper prefix first |
| `Json.MapEncodingIsCanonical` | crates/execution/src/common.rs:37-51 | two maps have the same encoding if and only if they have the same entries |
| `Json.PushUtf16Escape` | crates/execution/src/common.rs:77-82 | appends one escape for each UTF-16 unit |
| `Json.EncodeJsonString` | crates/execution/src/common.rs:53-75 | the loop writes the encoding; what it writes is read back as the value |
| `Json.EncodeJsonStringArray` | crates/execution/src/common.rs:23-35 | the loop writes an array that is read back as the values in order |
| `Json.EncodeJsonStringMap` | crates/execution/src/common.rs:37-51 | the loop writes an object that is read back as the entries in order |
| `StableHash.PrimeIsInvertible` | crates/execution/src/common.rs:17-17 | the wrapping multiplication can be undone for every 64-bit value |
| `StableHash.MixInjective` | crates/execution/src/common.rs:15-18 | one round maps different states to different states |
| `StableHash.SuffixCancels` | crates/execution/src/common.rs:15-18 | a common suffix neither makes nor hides a collision |
| `StableHash.CollisionIsLocal` | crates/execution/src/common.rs:12-21 | texts that differ in the middle collide if and only if they collide where they differ |
| `StableHash.OneByteChangesHash` | crates/execution/src/common.rs:12-21 | texts of equal length that differ in exactly one byte have different hashes |
| `StableHash.KnownHash` | crates/execution/src/common.rs:12-21 | the published FNV-1a value of the text "a" |
| `StableHash.StableHash64` | crates/execution/src/common.rs:12-21 | the loop computes the hash |
| `StableHash.MarkerPathIsHash` | crates/execution/src/runtime_support.rs:24-34 | marker paths of one kind and version are equal if and only if the hashes are |
| `StableHash.MarkerPathIsVersionAndHash` | crates/execution/src/runtime_support.rs:24-34 | of any two versions, marker paths are equal if and only if versions and hashes are |
| `StableHash.KnownMarker` | crates/execution/src/runtime_support.rs:24-34 | the marker path of the contents "a", spelled out |
| `StableHash.OneByteChangesMarker` | crates/execution/src/runtime_support.rs:24-34 | changing one byte of the contents always names another marker file |
| `Huffman.FitsIffNotOversubscribed` | crates/execution/assets/v8-bridge-zlib.js:67 | all canonical codes fit their lengths if and only if the over-subscription check passes |
| `Huffman.CheckIsKraft` | crates/execution/assets/v8-bridge-zlib.js:67 | the check passes if and only if the sum of 2^(15-length) over the symbols is at most 2^15, and the lengths are complete if and only if it is equal |
| `Huffman.CanonicalOrder` | crates/execution/assets/v8-bridge-zlib.js:67 | a code and the one before it in the order of lengths and symbols: one more, with zeros appended for the difference in length (section 3.2.2 of RFC 1951) |
| `Huffman.FirstCodeIsZero` | crates/execution/assets/v8-bridge-zlib.js:67 | the first code in that order is all zeros |
| `Huffman.PrefixFree` | crates/execution/assets/v8-bridge-zlib.js:67 | no symbol's code is a prefix of another's (section 3.2.2 of RFC 1951) |
| `Huffman.ReversedPrefixFree` | crates/execution/assets/v8-bridge-zlib.js:67 | after reversal no shorter code is the low bits of a longer one |
| `Huffman.UniqueDecoding` | crates/execution/assets/v8-bridge-zlib.js:67 | at most one symbol's code starts a bit string |
| `Huffman.CompleteDecodes` | crates/execution/assets/v8-bridge-zlib.js:67 | with complete lengths every bit string starts with some symbol's code |
| `Huffman.IncompleteLeavesGap` | crates/execution/assets/v8-bridge-zlib.js:67 | with incomplete lengths some bit string starts with no code |
| `Huffman.BitsOfReverse` | crates/execution/assets/v8-bridge-zlib.js:67 | a reversed code sent low bit first is the code sent high bit first |
| `HuffmanTree.BiReverse` | crates/execution/assets/v8-bridge-zlib.js:67 | `Op`: the loop computes the reversal |
| `HuffmanTree.FirstCodes` | crates/execution/assets/v8-bridge-zlib.js:67 | `Tp`, first loop: the first code of every length |
| `HuffmanTree.GenCodes` | crates/execution/assets/v8-bridge-zlib.js:67 | `Tp`: every symbol with a length gets the reversal of its canonical code in place; all other cells stay |
| `HuffmanTree.CountLengths` | crates/execution/assets/v8-bridge-zlib.js:67 | `Vt`: how many codes have each length |
| `HuffmanTree.CheckSpace` | crates/execution/assets/v8-bridge-zlib.js:67 | `Vt`: fails exactly on over-subscribed lengths, otherwise leaves the unused code space |
| `HuffmanTable.SortSymbols` | crates/execution/assets/v8-bridge-zlib.js:67 | `Vt`: symbols end up in code order |
| `HuffmanTable.Increment` | crates/execution/assets/v8-bridge-zlib.js:67 | `Vt`: one step of the backwards counter |
| `HuffmanTable.ReversedNextIsNext` | crates/execution/assets/v8-bridge-zlib.js:67 | the backwards counter counts the codes in order |
| `HuffmanTable.Fill` | crates/execution/assets/v8-bridge-zlib.js:67 | `Vt`, innermost loop: an entry goes to every index that ends in the code, and nothing else changes |
| `HuffmanTable.StartsIsPrefix` | crates/execution/assets/v8-bridge-zlib.js:67 | matching the low bits of an index is being a prefix of the bit stream |
| `InflateTable.LengthRanges` | crates/execution/assets/v8-bridge-zlib.js:67 | literals stand for themselves, 256 ends the block, the lengths from 3 to 258 are tiled by bases and extra bits, and 286 and 287 are invalid (section 3.2.5 of RFC 1951) |
| `InflateTable.DistanceRanges` | crates/execution/assets/v8-bridge-zlib.js:67 | the distances from 1 to 32768 are tiled by bases and extra bits, and 30 and 31 are invalid (section 3.2.5 of RFC 1951) |
| `InflateTable.Alphabets` | crates/execution/assets/v8-bridge-zlib.js:67 | 19, 288 and 32 symbols, tables of at most 852 and 592 entries, and the entry for bits that no code starts |
| `InflateTable.InBlock` | crates/execution/assets/v8-bridge-zlib.js:67 | the strings of a code that is longer than the root index lie within the block of its first bits |
| `InflateTable.FoundAtRoot` | crates/execution/assets/v8-bridge-zlib.js:67 | bits that start with a short code lead to its symbol and length |
| `InflateTable.FoundInSub` | crates/execution/assets/v8-bridge-zlib.js:67 | bits that start with a longer code lead through the link and the sub-table to its symbol, and the two levels add up to its length |
| `InflateTable.LinkKeeps` | crates/execution/assets/v8-bridge-zlib.js:67 | the link of a new sub-table overwrites no entry of a symbol |
| `InflateTable.SubFillKeeps` | crates/execution/assets/v8-bridge-zlib.js:67 | entering a code in its sub-table overwrites no entry of another symbol |
| `InflateSize.DepthIs` | crates/execution/assets/v8-bridge-zlib.js:67 | the depth of a block is how far a code of it that none is longer than goes on |
| `InflateSize.RootBitsIs` | crates/execution/assets/v8-bridge-zlib.js:67 | the index width asked for, moved into the range of the code lengths in use |
| `InflateSize.SharesBlock` | crates/execution/assets/v8-bridge-zlib.js:67 | with complete lengths a longer code shares its block with another one |
| `InflateSize.SizeBound` | crates/execution/assets/v8-bridge-zlib.js:67 | with complete lengths at most d bits longer than the root index, the sub-tables take at most 2^d entries for every two symbols |
| `InflateSize.CompleteNeedsMany` | crates/execution/assets/v8-bridge-zlib.js:67 | complete lengths of at least m bits need at least 2^m symbols |
| `InflateSize.TablesFit` | crates/execution/assets/v8-bridge-zlib.js:67 | with the root indices 9 and 6 of the program, all complete literal lengths up to 10 and distance lengths up to 11 are within the limits 852 and 592 |
| `InflateBuilder.FinalSize` | crates/execution/assets/v8-bridge-zlib.js:67 | when every symbol is entered, the entries in use are exactly the table size |
| `InflateBuilder.FitsIfReached` | crates/execution/assets/v8-bridge-zlib.js:67 | if the codes up to some length reach the end of a block, no longer code is in it |
| `InflateBuilder.SubTableBits` | crates/execution/assets/v8-bridge-zlib.js:67 | `Vt`: the loop that sizes a sub-table finds exactly how far the longest code of the block goes on, so every code of the block fits and no bit is wasted |
| `InflateBuilder.EnterSymbol` | crates/execution/assets/v8-bridge-zlib.js:67 | `Vt`: the entries of one symbol are written; no other symbol loses one |
| `InflateBuilder.OpenTable` | crates/execution/assets/v8-bridge-zlib.js:67 | `Vt`: a sub-table behind the last one, linked from its block; given up exactly if the tables of the blocks up to this one exceed the limit |
| `InflateBuilder.NextTable` | crates/execution/assets/v8-bridge-zlib.js:67 | `Vt`: the table for the next code is the root table or the sub-table of its block, opened if the block is new; given up only if the exact table size exceeds the limit |
| `InflateBuilder.FillTables` | crates/execution/assets/v8-bridge-zlib.js:67 | `Vt`, main loop: succeeds exactly if the exact table size is within the limit; every symbol is then entered, root and sub-tables do not overlap, the entries in use are that size, nothing behind the limit is touched |
| `InflateBuilder.EndOfCodes` | crates/execution/assets/v8-bridge-zlib.js:67 | after complete lengths the counter is back at zero, so the final write for a non-zero counter is not made |
| `InflateBuilder.AllFound` | crates/execution/assets/v8-bridge-zlib.js:67 | with complete lengths every sequence of bits is looked up to the symbol it starts with and its length |
| `InflateBuilder.LoneFound` | crates/execution/assets/v8-bridge-zlib.js:67 | the one incomplete code that is accepted: its symbol is found, and every other bit leads to the invalid entry |
| `InflateBuilder.BuildTable` | crates/execution/assets/v8-bridge-zlib.js:67 | `Vt`: lengths are refused exactly if they are over-subscribed, or incomplete and not the accepted single code; too large exactly if the exact table size exceeds 852 or 592; all others get tables that decode every sequence of bits, for all lengths up to 15, any root index and all three alphabets |
| `InflateSymbols.LookUp` | crates/execution/assets/v8-bridge-zlib.js:67 | `Im`: both levels are looked up with bytes pulled as needed; the entry is the one the bits lead to, or no code comes next |
| `InflateSymbols.DecodeSymbol` | crates/execution/assets/v8-bridge-zlib.js:67 | `Im`: a symbol's entry is returned exactly if its code comes next, and exactly that code is taken |
| `InflateSymbols.EntriesTellSymbols` | crates/execution/assets/v8-bridge-zlib.js:67 | the entries of literals, lengths and distances tell the symbols apart, except for the two unused distances |
| `InflateSymbols.EncodeSymbols` | crates/execution/assets/v8-bridge-zlib.js:67 | the emitted bytes are the symbols' codes and less than a byte of zeros |
| `InflateSymbols.DecodeSymbols` | crates/execution/assets/v8-bridge-zlib.js:67 | reading as many symbols as were sent gives the entries of those symbols |
| `InflateSymbols.RoundTrip` | crates/execution/assets/v8-bridge-zlib.js:67 | lengths to codes, codes to bytes, lengths to tables, tables and bytes back to symbols: for all complete lengths up to 15 bits whose exact table size is within the limit, what is decoded is what was sent |
| `BitStream.BitWriter.PutShort` | crates/execution/assets/v8-bridge-zlib.js:67 | `Zt`: sixteen bits, low byte first |
| `BitStream.BitWriter.SendBits` | crates/execution/assets/v8-bridge-zlib.js:67 | `ie`: the emitted bytes and the buffered bits grow by exactly the bits of the value, low bit first |
| `BitStream.BitWriter.FlushBits` | crates/execution/assets/v8-bridge-zlib.js:67 | `_E`: no bit is added or lost and less than a byte stays buffered |
| `BitStream.BitWriter.Windup` | crates/execution/assets/v8-bridge-zlib.js:67 | `Np`: pads with less than a byte of zeros and empties the buffer |
| `BitStream.BitReader.NeedBits` | crates/execution/assets/v8-bridge-zlib.js:67 | `Im`: pulls bytes without changing what is still to be read; fails exactly at the end |
| `BitStream.BitReader.DropBits` | crates/execution/assets/v8-bridge-zlib.js:67 | `Im`: takes exactly the low bits off |
| `BitStream.BitReader.ReadBits` | crates/execution/assets/v8-bridge-zlib.js:67 | `Im`: returns the next bits as a number exactly if there are enough |
| `BitString.BitAt` | crates/execution/assets/v8-bridge-zlib.js:67 | the bits of a number are its binary digits, lowest first |
| `BitStream.WriteFields` | crates/execution/assets/v8-bridge-zlib.js:67 | any sequence of values and widths up to 16 becomes exactly its bits and less than a byte of zeros |
| `BitStream.WriteThenRead` | crates/execution/assets/v8-bridge-zlib.js:67 | reading with the same widths returns every value (section 3.1.1 of RFC 1951) |
| `Adler.AddBlock` | crates/execution/assets/v8-bridge-zlib.js:67 | `TE`, inner loop: the sums of a block of up to 2000 bytes stay below 2^31, so nothing wraps |
| `Adler.Adler32` | crates/execution/assets/v8-bridge-zlib.js:67 | `TE`: the modulus taken once per block gives the byte-at-a-time checksum, for every input |
| `Adler.FoldOfRaw` | crates/execution/assets/v8-bridge-zlib.js:67 | it makes no difference when the modulus is taken |
| `Adler.ChecksumAppend` | crates/execution/assets/v8-bridge-zlib.js:67 | checksumming in two parts is checksumming the whole |
| `Adler.ChecksumClosed` | crates/execution/assets/v8-bridge-zlib.js:67 | the checksum is the closed form of section 2.2 of RFC 1950 |
| `Adler.ChecksumNumber` | crates/execution/assets/v8-bridge-zlib.js:67 | from 1, as one unsigned number: the weighted sum modulo 65521 times 65536, plus the sum modulo 65521 |
| `ProcessTree.ReachedIff` | scripts/benchmarks/memory.bench.ts:78-108 | the set summed over is exactly what chains of parent and child lead to from the host |
| `ProcessTree.SumWithout` | scripts/benchmarks/memory.bench.ts:78-108 | the sum over a set of processes does not depend on the order |
| `ProcessTree.SumOfOne` | scripts/benchmarks/memory.bench.ts:62-70 | a process counts what can be read of it, else 0 |
| `ProcessTree.VisitChildren` | scripts/benchmarks/memory.bench.ts:94-101 | counts and queues each child not seen before; the parent is then expanded |
| `ProcessTree.ProcessTreeRssBytes` | scripts/benchmarks/memory.bench.ts:78-108 | ends on every finite process graph, cycles included, and returns the sum over exactly the processes reached from the host, each once |

## Left out

- Process spawning, sockets, token generation, binary lookup and connect retry of the V8 host: operating-system I/O.
- Partially failed writes of a sender that goes on: a locked send writes a whole frame or nothing. A stream that ends anywhere is covered by `FrameStream.ReadAllOfCutStream`.
- Dropped receivers: a send into a channel nobody reads is ignored by the program, and channels here always accept.
- Poisoned locks.
- FrameStream.FrameReader.ReadOne: what `read_exact` has taken from the socket before a failure is not specified, because the reader stops there.
- Frame payloads (CBOR, V8 serialisation) are opaque bytes.
- Python file-system actions, response payloads, path translation, metadata, environment and prewarming of the Python engine, and every part of the JavaScript engine but the slot its answers go through.
- PythonSession.PythonExecution.SendAnswer: the write of a bridge response always works; an encoding or socket error would drop the answer.
- PythonSession.PythonExecution.TimerReports: likewise, the timer's write always works.
- PythonSession.CallIdRouter.TakeId: call ids do not wrap around at 2^64, and a session that has ended is not told apart from one that does not read.
- The fast inner loop of inflate, the match finder, window copies, and the deflate and inflate drivers of the zlib bundle.
- InflateSize.TablesFit: literal lengths above 10 and distance lengths above 11 are not shown to fit the limits; `InflateBuilder.BuildTable` says exactly which do.
- BitStream.BitWriter.PutShort: the pending buffer has no capacity limit here; the program sizes it beforehand.
- Floating point: samples are reals, so rounding and not-a-number are not modelled, and the standard deviation is left out.
- Measurements, and the JSON form of the run state: that a rendered state is parsed back as it was is an assumption of `BenchmarkRun.StateFile.Replace`.
- Benchmark artifacts, comparisons and rendering; whether a finished run gets as far as removing the state file is left open.
- AtomicFile.WriteStringAtomic: a rename is atomic and survives the death of the process; loss of power is not modelled.
- ProcessTree.ProcessTreeRssBytes: /proc is read as one snapshot, and process ids are natural numbers.
- StableHash.MarkerPathIsHash: the directory is joined with one slash, whatever it ends in.
- Json.EncodeJsonStringMap: the ordered map is given as its entries in iteration order.
- The kernel, sidecar, registry, playground and web parts of the repository.
