# Verified models of cpp-essence

cpp-essence is a C++ utility library. This project models the parts of it that hold algorithms or protocols of their
own, and proves what those parts are for:

- **The chunk-processing pipeline.** Leaf processors are byte transducers (`Transducer.dfy`, `LeafProcessor.dfy`); a
  chain of them works over two buffers that swap roles (`Span.dfy`, `ChainProcessor.dfy`), which have room for the
  stages' outputs if these grow little enough (`ChainRoom.dfy`); a stream buffer and a chunking provider sit on top
  (`CipherStream.dfy`, `CipherProvider.dfy`).
- **Three concurrent protocols**, as steps of threads that interleave freely: `parallel_for` (`ParallelFor.dfy`,
  `ParallelForBound.dfy`, `ParallelForStop.dfy`, `ParallelForView.dfy`), the interruptable timer
  (`InterruptableTimer.dfy`, and `InterruptableTimerCalls.dfy` for what its calls promise), and the copy-on-write
  delegate (`Delegate.dfy` for its methods, `DelegateReaders.dfy` for its use by several threads).
- **Language files**: the compiler that prints them and the translator that reads them (`LanguageFile.dfy`).
- **The command-line argument parser** (`ArgParser.dfy`), its laws over whole argument lists (`ArgParserLaws.dfy`), and the
  trimming it uses (`Strings.dfy`).
- **Server-sent events**: the server's printer and the client's line loop (`ServerSentEvents.dfy`).
- **Arithmetic**: rationals (`Gcds.dfy`, `Rational.dfy`), the same in 64 bits (`RationalInt64.dfy`), powers of two and
  the buffer size built on both (`BufferSize.dfy`), and the compile-time splitters (`Splitter.dfy`).

`dafny verify dfyconfig.toml` verifies the whole project.

## What is assumed

- A leaf processor is a transducer: it has a state, every input byte moves the state and emits bytes, and the
  finalization emits a last piece. It writes to the start of the span it is given and shrinks the span to what it wrote.
  The cipher library behind it is not part of this model.
- The concurrent models assume sequential consistency: every access to a shared cell is one step. Waiting on a
  condition variable may end whenever its predicate holds; a timed wait may end at any time. The mutex around the catch
  block of `parallel_for` is not used to exclude any interleaving, so the theorems hold for more interleavings than the
  program has.
- The input of a chain does not lie in the chain's own buffer pair, and the same processor does not occur twice in one
  chain, since processors are uniquely owned.
- `std::gcd`, `std::lcm`, `std::remove`, `std::getline`, `find`, `find_first_of` and counting leading zeros are modelled
  by definitions of what they compute; the line reader of the HTTP library is modelled by the line ends of section 9.2.6
  of the WHATWG HTML standard (LF, CR, CR LF), and only complete lines are processed.

## Where the code and its remarks differ

The model follows the code. For every difference the lemma or method that states it is named.

- `parallel_for`: the remark at `src/thread.cpp:96-101` says that the counter may overflow harmlessly. Ids are handed out
  rightly in every interleaving exactly if max(start, end) plus the number of workers is at most 2^64, or end is 0
  (`BoundIsExact`); past that the counter wraps while workers still fetch, and the id 0 is handed out wrongly
  (`WrapsPastBound`). With a thread count of 0 on a system that reports no hardware concurrency there are no workers, so
  ids of a range that is not empty are handed out exactly if one of the two numbers is positive (`CompleteExactly`).
- Timer: a callback with a deferred time is meant to wait for it. The worker decides about that by `timer_running_`, which
  a start raises only after it has published the info, so after a stop that left the worker turning it may find the info
  first and run the callback at once (`SkippedDeferralIsReachable`). It defers exactly if it finds `timer_running_` up
  (`DefersExactly`).
- Delegates that return values promise an exception when nobody has subscribed. They read past the end of their copy
  instead (`include/essence/delegate.hpp:126`), exactly if there is no listener, and call an empty function exactly if
  the first listener is one; the exception never comes (`TryInvoke`, `InvokeFresh`). An empty function among the
  listeners ends every invocation, so all are called exactly if none is empty (`AllAreCalled`).
- Argument parser: a remark at `src/cli/arg_parser.cpp:233` says that `--switch true` is equivalent to `--switch`. The next
  argument is never the value of a boolean option, so `--switch false` switches on and leaves `false` unmatched
  (`SwitchIgnoresNext`). Absent options are entered under their bound names trimmed at both ends, so an absent option
  whose bound name ends in a hyphen is missing under its own name (`ResultIsComplete`).
- SSE client: the remark at `src/net/sse_client.cpp:63` says that leading blanks are trimmed; the untrimmed content is
  used. The two agree exactly if the content does not begin with a blank or holds nothing else (`TrimmedExactly`).
- `ceil` of rationals: division rounds towards zero, so for negative fractions the result may be one too large, and the
  sum before it may overflow. It is right exactly if numerator plus denominator is below 2^63, and the numerator exceeds
  minus the denominator or is one more than a multiple of it (`TryCeilIsCeiling`).
- The size of an output buffer: the cast of the size to int64, the product, and the sum in rounding up may overflow, and
  adding the extra bytes may wrap, although a power of two would hold what is asked for (`ProductOverflows`,
  `SumOverflows`, `ExtraWraps`). `OutputBufferExactly` gives the exact condition.
- `ceil_power_of_two` is undefined for 0 and past half the range of the machine word, and is cut to 0 past half the range
  of a narrower type (`DefinedUpToHalf`, `CeilPowerOfTwoIsLeast`).
- Language files: a map is read back exactly if no key contains 0x1E or 0x1F and no value contains 0x1F (`RoundTrip`).

## Model

| member | source | states |
|---|---|---|
| `Transducers.SplitIndependence` | src/crypto/symmetric_cipher_provider.cpp:97-109 | the outputs of one processor on any chunks of an input concatenate to its output on the whole input |
| `Transducers.RunAppend` | include/essence/crypto/abstract/chunk_processor.hpp:94-101 | consuming one input after another reaches the state, and emits the bytes, of consuming both at once |
| `Transducers.OneByte` | include/essence/crypto/abstract/chunk_processor.hpp:94-101 | on a single byte the state and the output are those of one step |
| `Transducers.EmitIsConcatenation` | include/essence/crypto/abstract/chunk_processor.hpp:94-101 | what is emitted for an input is the concatenation, over its bytes, of what each step emits in the state it finds |
| `Transducers.RunIsUnique` | include/essence/crypto/abstract/chunk_processor.hpp:94-101 | the laws for nothing, for one byte and for two inputs determine the state and the output of every run |
| `Transducers.ChainOnNothing` | src/crypto/chunk_processor.cpp:95-97 | an empty update emits nothing and changes no stage, so returning early is right |
| `Transducers.ChainSplitIndependence` | src/crypto/chunk_processor.cpp:94-109 | any sequence of updates of a chain emits the same bytes and leaves all stages in the same states as one update on everything |
| `Transducers.ChainIsComposition` | src/crypto/chunk_processor.cpp:120-129 | what a chain emitted on xs, followed by the recurrence G_n = U_n(G_(n-1)) ++ F_n started from g, is the composition of the stages' whole transforms on xs ++ g |
| `Transducers.ChainTheorem` | src/crypto/chunk_processor.cpp:94-143 | for every list of stages and every way to cut the input, the update outputs followed by the finalization are T_n(... T_1(whole input)) |
| `Spans.SwappingBuffer.constructor` | include/essence/memory/swapping_buffer.hpp:47-48 | starts unswapped with the second buffer as output |
| `Spans.SwappingBuffer.Reset` | include/essence/memory/swapping_buffer.hpp:52-56 | the output becomes the whole unswapped original, both originals are kept |
| `Spans.SwappingBuffer.SetOut` | include/essence/memory/swapping_buffer.hpp:64-68 | replaces both originals and resets to them |
| `Spans.SwappingBuffer.SetTemporaryOut` | include/essence/memory/swapping_buffer.hpp:79-81 | replaces both originals and hands back the old ones |
| `Spans.SwappingBuffer.Restore` | include/essence/memory/swapping_buffer.hpp:82-87 | at the end of the scope both old originals are back and the state is reset |
| `Spans.SwappingBuffer.Swap` | include/essence/memory/swapping_buffer.hpp:93-101 | what was written becomes the input, and the output becomes the whole original that was not in use |
| `Spans.ApartIsDisjoint` | include/essence/memory/swapping_buffer.hpp:93-101 | spans that are apart share no byte, and of two that are not empty and share none each is apart from the other |
| `Spans.InsideIsCovered` | include/essence/memory/swapping_buffer.hpp:123-125 | a span that is not empty lies inside another if and only if all its bytes belong to the other |
| `LeafProcessors.Leaf.Update` | include/essence/crypto/abstract/chunk_processor.hpp:94-101 | the bytes emitted for the input stand in a prefix of the given span, the span is shrunk to them, and nothing outside it changes |
| `LeafProcessors.Leaf.Finalize` | include/essence/crypto/abstract/chunk_processor.hpp:103-109 | the same for the last piece |
| `ChainProcessors.MaxBufferSize` | src/crypto/chunk_processor.cpp:40-46 | bounds every buffer that any stage asks for, and is one of them |
| `ChainProcessors.AdjacentSuffice` | src/crypto/chunk_processor.cpp:57-62 | some neighbours differ in direction exactly if some two stages do, so the check of neighbours rejects just the mixed chains |
| `ChainRooms.RoomForChain` | src/crypto/chunk_processor.cpp:40-55 | if the growths of the leaves, one after the other, stay within a half for an update and within the whole buffers for the finalization, then all outputs fit in every run |
| `ChainRooms.RoomForFlush` | src/crypto/chunk_processor.cpp:111-142 | the same for the recurrence of the finalization, from any G on |
| `ChainRooms.RoomForSlack` | src/crypto/chunk_processor.cpp:40-55 | if every leaf emits at most b bytes more than it is given, an input of at most half minus n * b bytes fits into a chain of n leaves, and so does its finalization |
| `ChainRooms.PayingGrows` | include/essence/crypto/abstract/chunk_processor.hpp:70-85 | a leaf that pays for what it emits out of what it holds grows by its size factor and what it may hold, in every run |
| `ChainRooms.LengthPreserving` | include/essence/crypto/abstract/chunk_processor.hpp:70-85 | a leaf that maps byte to byte has no slack |
| `ChainRooms.GroupingGrows` | include/essence/crypto/abstract/chunk_processor.hpp:70-85 | a leaf that turns groups of bytes into groups of bytes grows by the ratio of their sizes and one group |
| `ChainRooms.GroupCompletes` | include/essence/crypto/abstract/chunk_processor.hpp:70-85 | such a leaf emits the code of a group just when the group is complete, and holds nothing then |
| `ChainRooms.BlocksGrow` | src/crypto/chunk_processor_symmetric_cipher.cpp:92-102 | a block cipher has one block of slack |
| `ChainRooms.OwnLeavesFit` | src/crypto/chunk_processor_base64.cpp:97-111 | ciphers, Base64 encoders and decoders fit the buffers they ask for, in every run |
| `ChainRooms.CipherThenBase64` | src/crypto/chunk_processor.cpp:40-55 | a cipher followed by a Base64 encoder has room for chunks of up to 4096 bytes and for its finalization |
| `ChainRooms.ChainOfMaps` | src/crypto/chunk_processor.cpp:99-108 | a chain of byte maps emits, for every byte, what the maps make of it in order, and has room whenever the input fits |
| `ChainRooms.UpdateByteMaps` | src/crypto/chunk_processor.cpp:94-109 | an update of such a chain object writes fn(... f1(x)) for every byte x of the input |
| `ChainProcessors.ChainProcessor.constructor` | src/crypto/chunk_processor.cpp:50-66 | wires two fresh halves of the largest size asked for, and a fresh finalization buffer as large as both |
| `ChainProcessors.ChainProcessor.Init` | src/crypto/chunk_processor.cpp:88-92 | starts a run on the empty input whatever happened before, with the invariant that ties all states to the accepted bytes |
| `ChainProcessors.ChainProcessor.UpdateStage` | src/crypto/chunk_processor.cpp:101-107 | given a read span apart from the write span, one stage leaves its output inside the original output |
| `ChainProcessors.ChainProcessor.UpdateAndSwap` | src/crypto/chunk_processor.cpp:101-104 | a round of the loop keeps the read span inside the buffer that is not written, moves just one stage's state, and the next stage reads just what this one emits |
| `ChainProcessors.ChainProcessor.UpdateStages` | src/crypto/chunk_processor.cpp:99-108 | after all rounds every stage has its state and the last output is the chain's |
| `ChainProcessors.ChainProcessor.UpdateLast` | src/crypto/chunk_processor.cpp:106-108 | with the last stage, which does not swap, the output is the chain's and every state has moved on |
| `ChainProcessors.ChainProcessor.Update` | src/crypto/chunk_processor.cpp:94-109 | emits the bytes of all stages composed, moves every stage's state accordingly, and extends the run by the input |
| `ChainProcessors.ChainProcessor.FlushU` | src/crypto/chunk_processor.cpp:124-126 | the U part stands at the start of the original output, and the output becomes what follows it |
| `ChainProcessors.ChainProcessor.FlushF` | src/crypto/chunk_processor.cpp:128-130 | the F part stands right behind the U part, and the output becomes both, contiguous in the original output |
| `ChainProcessors.ChainProcessor.FlushFirst` | src/crypto/chunk_processor.cpp:114-116 | G_1 = F_1, and the next stage reads it |
| `ChainProcessors.ChainProcessor.FlushAndSwap` | src/crypto/chunk_processor.cpp:118-139 | a round computes G_k = U_k(G_(k-1)) ++ F_k while reading and writing in different buffers, and leaves later stages alone |
| `ChainProcessors.ChainProcessor.FlushStages` | src/crypto/chunk_processor.cpp:114-142 | all rounds together produce G_n |
| `ChainProcessors.ChainProcessor.Finalize` | src/crypto/chunk_processor.cpp:111-143 | what was emitted since `Init` followed by the result is T_n(... T_1(everything accepted)); both original buffers are restored, so the chain is ready for its next run |
| `ChainProcessors.Chain` | src/crypto/chunk_processor.cpp:153-155 | fewer than two stages and mixed directions are refused, every other chain is made |
| `CipherStreams.CipherStreambuf.Init` | src/crypto/ostream.cpp:50-59 | opens with an empty history on the given stream and processor |
| `CipherStreams.CipherStreambuf.ProcessBuffer` | src/crypto/ostream.cpp:118-128 | moves the whole put area through the processor and on to the stream, keeping the invariant: accepted = processed ++ put area, written = the processor's output on the processed bytes |
| `CipherStreams.CipherStreambuf.Overflow` | src/crypto/ostream.cpp:86-100 | accepts the byte exactly if the stream is open and there is one, making room first |
| `CipherStreams.CipherStreambuf.Put` | src/crypto/ostream.cpp:86-100 | accepts the byte exactly if the stream is open |
| `CipherStreams.CipherStreambuf.PutBlock` | src/crypto/ostream.cpp:86-100 | accepts all bytes of a block in order, or none when closed |
| `CipherStreams.CipherStreambuf.Sync` | src/crypto/ostream.cpp:102-115 | on an open stream everything accepted has been processed; a closed one is refused with -1 |
| `CipherStreams.CipherStreambuf.Finalize` | src/crypto/ostream.cpp:74-83 | the stream has got T(everything accepted) behind what it held |
| `CipherStreams.CipherStreambuf.Close` | src/crypto/ostream.cpp:61-68 | an open stream has got T(everything accepted), finalized once; a second close changes nothing |
| `CipherProviders.ProcessChunk` | src/crypto/symmetric_cipher_provider.cpp:85-95 | one chunk extends the result by just the bytes its processing emits |
| `CipherProviders.ProcessData` | src/crypto/symmetric_cipher_provider.cpp:73-112 | for a buffer of any length the result is T(buffer), so chunking by 4096 agrees with one update and with the stream buffer |
| `ParallelFors.StepKeepsInv` | src/thread.cpp:79-105 | every step of every worker keeps the invariant that ties the counter, the log of claims, the workers' positions, their exit flags and the stored exception |
| `ParallelFors.Safety` | src/thread.cpp:73-107 | in every interleaving no id outside the range is handed out, none twice, and the counter stays at most max(start, end) plus the number of workers, even across the store of `end` |
| `ParallelFors.AtJoin` | src/thread.cpp:81-115 | at the join the call rethrows exactly if a handler threw; every claimed id was handled, threw, or was skipped because the same worker had asked for its exit before; and if there are workers or no ids, and nothing was thrown, exactly the ids of the range were claimed |
| `ParallelFors.CompleteExactly` | src/thread.cpp:59-61 | as many workers start as are asked for, else as the hardware has; every call that does not throw hands out all its ids if and only if one of these numbers is positive or the range is empty |
| `ParallelFors.VariantDecreases` | src/thread.cpp:80-105 | every step decreases a bound on the steps still to come |
| `ParallelFors.Termination` | src/thread.cpp:71-116 | every run has at most four steps for each id and one for each worker, and never gets stuck before the join |
| `ParallelForBound.WrapsPastBound` | src/thread.cpp:81-102 | for every range and number of workers past the bound, an interleaving that hands out the id 0 wrongly |
| `ParallelForBound.NothingBelowZero` | src/thread.cpp:83-85 | with end 0 no id is ever handed out |
| `ParallelForBound.BoundIsExact` | src/thread.cpp:96-102 | ids are handed out rightly in every interleaving if and only if max(start, end) + workers <= 2^64 or end is 0 |
| `ParallelForStop.NothingAfterStore` | src/thread.cpp:91-104 | in every run no id is handed out after a worker that caught an exception has stored `end`, so at the join every id was handed out before the first such store |
| `ParallelForStop.FirstThrows` | src/thread.cpp:79-115 | for every range and number of workers there is a run in which the first id throws, nothing else is handed out, and the call rethrows |
| `ParallelForStop.FirstExits` | src/thread.cpp:79-90 | and one in which the first worker asks for its exit at the first id, takes all other ids and handles none |
| `ParallelForView.SingleThread` | src/thread.cpp:63-70 | the loop of one thread applies the handler to every element once |
| `ParallelForView.SingleThreadExits` | src/thread.cpp:63-70 | with a handler that may exit or throw, the ids up to and including the first that does not continue are handled in order, and nothing after |
| `ParallelForView.ViewStepKeeps` | include/essence/thread.hpp:77-81 | every step keeps: an element holds the handler's result if its id was handled, and its old value if not |
| `ParallelForView.ViewKeepsUp` | include/essence/thread.hpp:77-81 | no worker's step on the view is ever outside it |
| `ParallelForView.RefinesSingleThread` | src/thread.cpp:63-116 | with a handler that changes only its element, every interleaving leaves the array that the loop of one thread leaves |
| `InterruptableTimers.StepKeepsInv` | src/interruptable_timer.cpp:63-129 | every step of either thread keeps the agreement of `idle_running_`, `timer_info_`, `timer_running_` and both positions |
| `InterruptableTimers.TimerSafety` | src/interruptable_timer.cpp:63-129 | in every interleaving a callback belongs to the info published last, and none begins or is running between the return of `stop` and the publication by the next `start` |
| `InterruptableTimers.StopIsAnswered` | src/interruptable_timer.cpp:75-81 | a waiting stop is answered after at most four steps of the worker, none of which can be refused |
| `InterruptableTimers.StartTakesEffect` | src/interruptable_timer.cpp:92-129 | after a completed start the worker runs the published callback within nine steps of its own |
| `InterruptableTimerCalls.StopWithdraws` | src/interruptable_timer.cpp:75-81 | from the call of a stop to its return, in every interleaving, the controller just reports that it stopped; at the return nothing is published, `timer_running_` is down and no callback is running |
| `InterruptableTimerCalls.StartPublishes` | src/interruptable_timer.cpp:67-73 | from the call of a start to its return the controller reports that it stopped and then that it published the info; at the return that info is published, `timer_running_` is up and `idle_pending_` down |
| `InterruptableTimerCalls.StopSilences` | src/interruptable_timer.cpp:75-81 | in every continuation of a returned stop no callback begins or ends before the next start publishes |
| `InterruptableTimerCalls.StopReturns` | src/interruptable_timer.cpp:75-81 | from every reachable state a stop can be called and can return |
| `InterruptableTimerCalls.StartRuns` | src/interruptable_timer.cpp:67-73 | from every reachable state a start can be called, can return, and its callback can run |
| `InterruptableTimerCalls.StopParks` | src/interruptable_timer.cpp:96-100 | a stop of a timer at rest leaves the worker waiting |
| `InterruptableTimerCalls.RoundBegins` | src/interruptable_timer.cpp:102-103 | a worker that was woken clears `idle_running_` and `idle_pending_` before it looks for an info |
| `InterruptableTimerCalls.Pacing` | src/interruptable_timer.cpp:105-124 | in every interleaving each callback comes after a pause, after the deferral, or first of an info that is not deferred, unless the worker found `timer_running_` down when it decided about deferring |
| `InterruptableTimerCalls.DefersExactly` | src/interruptable_timer.cpp:107-114 | the worker defers if and only if it finds `timer_running_` up, and finds it down only while the controller is inside a call |
| `InterruptableTimerCalls.SkippedDeferralIsReachable` | src/interruptable_timer.cpp:84-90 | a run from the constructor on in which a deferred callback is run at once |
| `Delegates.WithoutOne` | include/essence/delegate.hpp:196-203 | erasing the position of an id takes out the only listener with that id and keeps the order of the others |
| `Delegates.DropTakesOutOne` | include/essence/delegate.hpp:156-166 | dropping a token takes out its own listener, whatever was added before or after |
| `Delegates.AllAreCalled` | include/essence/delegate.hpp:110-115 | an invocation reaches all listeners, in insertion order, if and only if none of them is empty |
| `Delegates.Delegate.constructor` | include/essence/delegate.hpp:64-66 | a new delegate publishes the empty list |
| `Delegates.Delegate.UpdateReadableBuffer` | include/essence/delegate.hpp:205-224 | publishes a fresh copy of the listeners with the end mark; older copies stay as they are |
| `Delegates.Delegate.AddListener` | include/essence/delegate.hpp:179-194 | appends under an id larger than all others, and publishes only if asked to |
| `Delegates.Delegate.RemoveListener` | include/essence/delegate.hpp:196-203 | leaves just the listeners with other ids, in order, and publishes a fresh copy if something was removed |
| `Delegates.Delegate.Append` | include/essence/delegate.hpp:83-91 | all functions of the other delegate follow the own ones, under the next ids, in one publication |
| `Delegates.Delegate.AddScoped` | include/essence/delegate.hpp:156-166 | the token is an id that no registered listener has |
| `Delegates.DropToken` | include/essence/delegate.hpp:159-163 | removes the token's listener if the delegate is still there and does nothing otherwise |
| `Delegates.Invoke` | include/essence/delegate.hpp:110-115 | calls the functions of the loaded copy up to the first empty one, in order |
| `Delegates.InvokeForResult` | include/essence/delegate.hpp:117-135 | for every copy, none included: it refuses exactly without a copy, reads past the end exactly of one without functions, calls an empty function exactly if the first is one, and otherwise calls the same functions and returns the last one's result |
| `Delegates.Delegate.TryInvoke` | include/essence/delegate.hpp:139-154 | a delegate never refuses: it reads past its copy if and only if it has no listener, fails on an empty function if and only if the first listener is one, and otherwise returns the last called listener's result |
| `Delegates.InvokeFresh` | include/essence/delegate.hpp:64-66 | a delegate that has just been made reads past its copy |
| `Delegates.NoSecondElement` | include/essence/delegate.hpp:126 | the second element of a copy exists if and only if there is a listener |
| `DelegateReaders.WriterKept` | include/essence/delegate.hpp:83-98 | at every step the listeners are those of the completed changes plus the change under way, with increasing ids |
| `DelegateReaders.CopiesKept` | include/essence/delegate.hpp:205-224 | the k-th published copy shows just what was registered after k changes, never the middle of one |
| `DelegateReaders.ReadersKept` | include/essence/delegate.hpp:107-115 | a reader has called just the functions before its position in the copy it loaded |
| `DelegateReaders.SnapshotInvocation` | include/essence/delegate.hpp:102-115 | for every run before and after its load, a finished invocation has called exactly the listeners registered when it loaded, in order, up to an empty one |
| `DelegateReaders.InvocationFinishes` | include/essence/delegate.hpp:107-115 | at any time an invocation can begin, and can finish without the writer |
| `DelegateReaders.AddBySteps` | include/essence/delegate.hpp:83-98 | the steps of a `+=` on their own add its functions under the next ids, in one publication |
| `DelegateReaders.ElsewhereIsSkipped` | include/essence/delegate.hpp:184 | an id taken by another delegate is never handed out |
| `DelegateReaders.RemoveBySteps` | include/essence/delegate.hpp:196-203 | the steps of a removal on their own take the listener out and publish once, or change nothing |
| `DelegateReaders.AppendAsSteps` | include/essence/delegate.hpp:83-91 | appending to a delegate object leaves it as the steps leave the state it shows |
| `DelegateReaders.AddAsSteps` | include/essence/delegate.hpp:93-98 | so does adding a function |
| `DelegateReaders.RemoveAsSteps` | include/essence/delegate.hpp:196-203 | so does removing a listener |
| `LanguageFiles.ToBytes` | src/globalization/compiler.cpp:86-106 | the header followed by the separated pairs of the string items, in order |
| `LanguageFiles.PairsAreStrings` | src/globalization/compiler.cpp:46-51 | a pair is compiled if and only if it is a string item |
| `LanguageFiles.EntriesAreStrings` | src/globalization/compiler.cpp:46-51 | the map that a round trip is about holds a text under a key if and only if the object has that string item |
| `LanguageFiles.GetLine` | src/globalization/translator.cpp:132 | reads up to the next terminator or the end, and fails only when nothing is left |
| `LanguageFiles.ParseBody` | src/globalization/translator.cpp:131-142 | the loop enters the chunks between terminators in order |
| `LanguageFiles.ParseLanguageFile` | src/globalization/translator.cpp:96-143 | checks magic flag, then version, then reads the body |
| `LanguageFiles.FileInFull` | src/globalization/common_constants.hpp:37-43 | the bytes of a file with one pair, separators and header written out |
| `LanguageFiles.ReadableExactly` | src/globalization/translator.cpp:115-127 | a file is read if and only if it begins with the magic flag and the version; otherwise the error names the first of them that is wrong |
| `LanguageFiles.BodiesCompose` | src/globalization/translator.cpp:131-142 | reading a body that ends in a terminator and then another is reading both, the second overriding the first |
| `LanguageFiles.ChunkIsIgnored` | src/globalization/translator.cpp:135-141 | a chunk without a delimiter changes nothing, wherever it stands |
| `LanguageFiles.LastTerminatorOptional` | src/globalization/translator.cpp:131-132 | a missing last terminator changes nothing |
| `LanguageFiles.ReadIsSeparable` | src/globalization/translator.cpp:135-141 | whatever is read has keys without separators and values without terminators |
| `LanguageFiles.RoundTrip` | src/globalization/compiler.cpp:86-106 | the compiled bytes are read back as the string items if and only if no key contains 0x1E or 0x1F and no value contains 0x1F |
| `LanguageFiles.CompiledTexts` | src/globalization/translator.cpp:87-93 | a loaded compiled file answers the key of every string item with its text and echoes every other name |
| `LanguageFiles.DefaultTranslator.Update` | src/globalization/translator.cpp:194-199 | replaces all settings and entries at once, or leaves everything as it was on an error |
| `LanguageFiles.DefaultTranslator.SetVirtualFs` | src/globalization/translator.cpp:168-170 | succeeds exactly if the file can be loaded from the new file system, and then replaces that and the entries; otherwise reports that error and changes nothing |
| `LanguageFiles.DefaultTranslator.SetWorkingDirectory` | src/globalization/translator.cpp:176-178 | the same for the working directory |
| `LanguageFiles.DefaultTranslator.SetLanguage` | src/globalization/translator.cpp:184-187 | the same for the language |
| `LanguageFiles.DefaultTranslator.GetText` | src/globalization/translator.cpp:189-191 | the loaded text for a name, or the name |
| `LanguageFiles.LoadExactly` | src/globalization/translator.cpp:60-65 | loading fails exactly for a file that does not exist or does not begin with the header, and otherwise yields the entries of its body |
| `LanguageFiles.SwitchToCompiled` | src/globalization/translator.cpp:184-191 | switching to a language whose file was compiled succeeds, and then every string item is answered with its text and every other name echoed |
| `ArgParsers.ArgParser.constructor` | src/cli/arg_parser.cpp:65-67 | a new parser knows just the help option, under `help`, `--help`, `-h` and `-?` |
| `ArgParsers.ArgParser.AddOption` | src/cli/arg_parser.cpp:85-99 | an option with a new bound name is registered and takes over its name and aliases; with a known bound name nothing changes |
| `ArgParserLaws.LookupAfterAdd` | src/cli/arg_parser.cpp:92-97 | after a registration its names lead to the new option and every other name to what it led to before |
| `ArgParsers.ArgParser.GiveOne` | src/cli/arg_parser.cpp:281-306 | one named option is given its value: refused in a mixed combination or by its own parsing, switched on when boolean without a value |
| `ArgParsers.ArgParser.GiveValue` | src/cli/arg_parser.cpp:277-307 | the loop over the options of one token records what each was given, up to the first refusal |
| `ArgParsers.ArgParser.ParseArgument` | src/cli/arg_parser.cpp:241-310 | adds just what its argument means, and returns the last index used, or the number of arguments on an error |
| `ArgParsers.ArgParser.ParseArguments` | src/cli/arg_parser.cpp:146-155 | the index ends at size + 1 exactly if there was an error, else at size, and the cache holds what the readings add up to |
| `ArgParsers.ReadingsStep` | src/cli/arg_parser.cpp:153-155 | every reading goes on at a larger index that is within the arguments |
| `ArgParsers.ScannedAll` | src/cli/arg_parser.cpp:153-163 | any scan that reached the end has read all readings in order, and is past the end exactly if one failed |
| `ArgParsers.CacheIs` | src/cli/arg_parser.cpp:301-306 | the cache is the unmatched arguments, the last values, and the set of options that got one |
| `ArgParsers.ArgParser.AddAbsentOptions` | src/cli/arg_parser.cpp:170-188 | every absent option gets its default, and a missing default makes the parsing fail |
| `ArgParsers.ArgParser.ParseArgsAndCache` | src/cli/arg_parser.cpp:146-168 | help is shown exactly if some argument gave a value to it; otherwise success, unmatched arguments and result are determined by the readings |
| `ArgParsers.ArgParser.Parse` | src/cli/arg_parser.cpp:133-144 | parses the trimmed arguments: help is shown exactly if some argument asks for it, and otherwise success, unmatched arguments and result are those of the readings |
| `ArgParserLaws.SplitAtFirstEquals` | src/cli/arg_parser.cpp:246-251 | name and value are what stands before and after the first equals sign |
| `Strings.TrimIs` | include/essence/string.hpp:111-137 | trimming removes just characters of the group from the two ends, and leaves none of them there |
| `Strings.TrimLeftKeeps` | include/essence/string.hpp:111-117 | trimming the start changes a string if and only if it begins with a character of the group and has others too |
| `Strings.TrimBlanks` | include/essence/string.hpp:38 | by default spaces and tabs are trimmed |
| `ArgParserLaws.TokensByHyphens` | src/cli/arg_parser.cpp:54-60 | an option token is whatever begins with a hyphen, and an abbreviation has just one |
| `ArgParserLaws.NameAndValue` | src/cli/arg_parser.cpp:246-251 | name and value of an argument are the trimmed texts around its first equals sign |
| `ArgParserLaws.NulAbbreviation` | src/cli/arg_parser.cpp:201-210 | a NUL character stands for the option named by a hyphen alone |
| `ArgParserLaws.AbbreviatedAre` | src/cli/arg_parser.cpp:199-222 | a combined abbreviation names an option if and only if one of its characters is a known abbreviation of it |
| `ArgParserLaws.GiveAll` | src/cli/arg_parser.cpp:279-307 | unless one refuses, every named option gets a value, in order, and options combined in one token are all boolean |
| `ArgParserLaws.NextByHyphen` | src/cli/arg_parser.cpp:270-275 | the next argument may be a value if and only if there is one, the token has none, and it does not begin with a hyphen |
| `ArgParserLaws.ConsumesExactly` | src/cli/arg_parser.cpp:270-309 | a token takes the next argument as its value if and only if it has none itself, the next is no option token, and no named option is boolean |
| `ArgParserLaws.ValueIsTaken` | src/cli/arg_parser.cpp:270-306 | an option that is not boolean, named by `--name` or `-x`, gets the value assigned to it, else the next argument if that is no option token, and fails on what it does not accept |
| `ArgParserLaws.SwitchIgnoresNext` | src/cli/arg_parser.cpp:233-236 | a boolean option without a value of its own is switched on whatever the next argument is, and does not consume it |
| `ArgParserLaws.SwitchIsSet` | src/cli/arg_parser.cpp:281-306 | a boolean option with a value of its own gets just that value, or fails if it does not accept it |
| `ArgParserLaws.UnknownName` | src/cli/arg_parser.cpp:190-197 | a name that is not registered gives no option a value, and still takes the next argument along |
| `ArgParserLaws.CombinedSwitches` | src/cli/arg_parser.cpp:199-222 | a combined abbreviation of boolean options switches on each of them, in order, and consumes nothing |
| `ArgParserLaws.CombinedAssignmentFails` | src/cli/arg_parser.cpp:262-268 | assigning a value to a combined abbreviation fails |
| `ArgParserLaws.CombinedMixFails` | src/cli/arg_parser.cpp:225-231 | combining several options of which one is not boolean fails |
| `ArgParserLaws.ReadingsInOrder` | src/cli/arg_parser.cpp:153-155 | readings follow each other without gaps at increasing positions, up to the end or a failure |
| `ArgParserLaws.ReadingsAreRead` | src/cli/arg_parser.cpp:241-310 | each reading is what its own argument means, whatever came before |
| `ArgParserLaws.EveryArgumentHasOneRole` | src/cli/arg_parser.cpp:241-310 | without an error every argument is exactly one of unmatched, option token, or the value consumed by the token just before it |
| `ArgParserLaws.UnmatchedAreSelected` | src/cli/arg_parser.cpp:255-260 | the unmatched arguments are just the arguments in that role, in the order given |
| `Strings.TrimLeftOnce` | src/cli/option.cpp:62-69 | a name that was trimmed when set is not changed by trimming it again |
| `ArgParserLaws.AbsentKeyIs` | src/cli/arg_parser.cpp:182-186 | the key of an absent option is its bound name if and only if that does not end in a hyphen |
| `ArgParserLaws.CachedValue` | src/cli/arg_parser.cpp:301-306 | an option has a cached result if and only if some argument named it, and then the value of its last occurrence under any name |
| `ArgParserLaws.AddedTo` | src/cli/arg_parser.cpp:170-188 | adding defaults sets those of absent options and keeps what the present ones have |
| `ArgParserLaws.ResultIsComplete` | src/cli/arg_parser.cpp:163-188 | on success every bound name is in the result if and only if no absent option's bound name ends in a hyphen, and then each has the value of its last occurrence, else its default |
| `ServerSentEvents.FramesInFull` | src/net/sse_types.hpp:31-33 | the frames of a message with an item and an id, of an empty one, and of a tick, written out |
| `ServerSentEvents.Connection.PutData` | src/net/sse_server.cpp:87-92 | one line for each data item |
| `ServerSentEvents.Connection.PutEmptyData` | src/net/sse_server.cpp:94-98 | the frame of no data is that of one empty item |
| `ServerSentEvents.Connection.PutId` | src/net/sse_server.cpp:100-109 | a line for the id unless it is empty |
| `ServerSentEvents.Connection.SendMessage` | src/net/sse_server.cpp:80-114 | appends just the frame of the message |
| `ServerSentEvents.Connection.SendTick` | src/net/sse_server.cpp:116-122 | appends a comment line and a blank one |
| `ServerSentEvents.ParseLine` | src/net/sse_client.cpp:56-83 | comments and unknown lines are skipped; the first matching prefix decides, and the rest of the line is taken as it is |
| `ServerSentEvents.OtherLinesIgnored` | src/net/sse_client.cpp:59-61 | comments and lines with no known prefix leave every message as it is, and may stand anywhere in a stream |
| `ServerSentEvents.LineEndsDoNotMatter` | src/net/sse_client.cpp:193 | a stream that ends its lines with CR, or with CR LF, is read as the one that ends them with LF |
| `ServerSentEvents.TrimmedExactly` | src/net/sse_client.cpp:63-82 | the value stored for a line is the trimmed one that the remark promises if and only if it does not begin with a blank or holds nothing else |
| `ServerSentEvents.ReadLine` | src/net/sse_client.cpp:193 | the first complete line without its end, and what follows it |
| `ServerSentEvents.ParseStream` | src/net/sse_client.cpp:190-216 | dispatches a message at every empty line, and starts over with an empty one |
| `ServerSentEvents.FeedFrame` | src/net/sse_client.cpp:190-216 | reading the frame of a clean message or tick dispatches just it, and leaves nothing behind |
| `ServerSentEvents.DispatchedIsClean` | src/net/sse_client.cpp:56-83 | nothing that is dispatched contains a line end, on any stream |
| `ServerSentEvents.RoundTrip` | src/net/sse_server.cpp:80-122 | the client dispatches what the server sent, in order, with an empty data list read as one empty item and a tick as an empty message, if and only if no item and no id contains CR or LF |
| `Gcds.Bezout` | include/essence/rational.hpp:106 | the greatest common divisor is an integer combination of its arguments |
| `Gcds.GcdIsGreatest` | include/essence/rational.hpp:106 | every common divisor divides it |
| `Gcds.Gauss` | include/essence/rational.hpp:135-137 | what divides a product and is coprime to one factor divides the other |
| `Rationals.SimplifyInPlace` | include/essence/rational.hpp:105-117 | for a non-zero denominator the updates in place leave the canonical fraction that means the same number |
| `Rationals.SimplifyIsCanonical` | include/essence/rational.hpp:105-117 | for a non-zero denominator the result has a positive denominator and greatest common divisor 1 |
| `Rationals.SimplifyIsExact` | include/essence/rational.hpp:105-117 | simplifying does not change the number that a fraction means |
| `Rationals.SimplifyIsUnique` | include/essence/rational.hpp:105-117 | whatever is canonical and means the number of a fraction is its simplification |
| `Rationals.ComparisonsAreExact` | include/essence/rational.hpp:127-149 | on positive denominators all comparisons agree with those of the numbers |
| `Rationals.CanonicalIsUnique` | include/essence/rational.hpp:135-137 | simplified fractions are `==` if and only if their fields are equal |
| `Rationals.LessIsStrictTotalOrder` | include/essence/rational.hpp:127-129 | `<` on simplified fractions is irreflexive, asymmetric, transitive and total |
| `Rationals.NegateIsExact` | include/essence/rational.hpp:151-153 | the result is simplified and means the negated number |
| `Rationals.AddIsExact` | include/essence/rational.hpp:155-161 | the result is simplified and means the sum |
| `Rationals.SubtractIsExact` | include/essence/rational.hpp:163-165 | the result is simplified and means the difference |
| `Rationals.MultiplyIsExact` | include/essence/rational.hpp:167-171 | the result is simplified and means the product |
| `Rationals.ReciprocalIsExact` | include/essence/rational.hpp:123-125 | the result means the inverse of a non-zero number |
| `Rationals.DivideIsExact` | include/essence/rational.hpp:173-175 | for a non-zero divisor the result is simplified and means the quotient |
| `RationalsInt64.TryCeilIsCeiling` | include/essence/rational.hpp:183-185 | for a positive denominator the result is the least integer not below the fraction if and only if numerator plus denominator is below 2^63, and the numerator exceeds minus the denominator or is one more than a multiple of it; otherwise the sum overflows or the result is one too large |
| `RationalsInt64.TryMultiply` | include/essence/rational.hpp:167-171 | a product is defined if and only if both raw products have magnitudes below 2^63, and then is that of unbounded integers |
| `RationalsInt64.TryCeil` | include/essence/rational.hpp:183-185 | rounding up is defined if and only if numerator plus denominator is below 2^63 |
| `RationalsInt64.Simplify` | include/essence/rational.hpp:105-117 | no intermediate value leaves int64, unless a part is the least int64, and the result is that of unbounded integers |
| `RationalsInt64.Negate` | include/essence/rational.hpp:151-153 | with parts below 2^31 in magnitude no intermediate value leaves int64, and the result is that of unbounded integers |
| `RationalsInt64.Add` | include/essence/rational.hpp:155-161 | the same, the common multiple included |
| `RationalsInt64.Subtract` | include/essence/rational.hpp:163-165 | the same |
| `RationalsInt64.Multiply` | include/essence/rational.hpp:167-171 | the same |
| `RationalsInt64.Divide` | include/essence/rational.hpp:173-175 | the same, for a non-zero divisor |
| `RationalsInt64.Less` | include/essence/rational.hpp:127-129 | neither product leaves int64, and the comparison is that of unbounded integers |
| `RationalsInt64.Equal` | include/essence/rational.hpp:135-137 | neither product leaves int64, and the comparison is that of unbounded integers |
| `RationalsInt64.Greater` | include/essence/rational.hpp:131-133 | neither product leaves int64, and the comparison is that of unbounded integers |
| `BufferSizes.DefinedUpToHalf` | include/essence/math.hpp:48-59 | the shift is defined exactly for numbers from 1 up to half the range of the word |
| `BufferSizes.CeilPowerOfTwoIsLeast` | include/essence/math.hpp:48-59 | where it is defined, the result is the least power of two not below the number if and only if the number is at most half the range of its type; past that it is 0 |
| `BufferSizes.CastsAreInverse` | src/crypto/inout_buffer_pair.cpp:48-49 | casting a size to int64 and back loses nothing, and keeps its value exactly below 2^63 |
| `BufferSizes.RequestedExactly` | src/crypto/inout_buffer_pair.cpp:48-49 | in int64, the bytes asked for are defined if and only if size, product, and the parts of the simplified product added up are below 2^63, and then are the least integer not below size times factor |
| `BufferSizes.OutputBufferExactly` | src/crypto/inout_buffer_pair.cpp:47-51 | for every size and positive factor: the size of the buffer is defined if and only if nothing on the way leaves int64, and without the extra bytes is the least power of two not below what is asked for, less than twice that, if and only if moreover some power of two holds it and leaves room for the extra bytes below 2^64 |
| `BufferSizes.NothingForZeroFactor` | src/crypto/inout_buffer_pair.cpp:47-51 | with a factor of zero, which a chain reports, or below, the size is not defined |
| `BufferSizes.ProductOverflows` | src/crypto/inout_buffer_pair.cpp:48-49 | a family of sizes for which the product overflows, 2^62 bytes with factor 3/2 among them |
| `BufferSizes.SumOverflows` | include/essence/rational.hpp:183-185 | the sizes 2^63 - 1 and 2^63 with factor 1 have no size of the buffer |
| `BufferSizes.ExtraWraps` | src/crypto/inout_buffer_pair.cpp:48-50 | extra bytes that fill up the range make an empty buffer of any power of two below 2^63 |
| `Splitters.CountPieces` | include/essence/meta/literal_string_util.hpp:80-90 | the first pass counts just the pieces that the second one fills in |
| `Splitters.FillPieces` | include/essence/meta/literal_string_util.hpp:91-104 | the second pass fills the array exactly, with the pieces in order |
| `Splitters.Split` | include/essence/meta/literal_string_util.hpp:77-106 | both passes together yield the pieces |
| `Splitters.JoinPieces` | include/essence/meta/literal_string_util.hpp:77-106 | joining the pieces with the delimiter gives the string |
| `Splitters.Contained` | include/essence/meta/literal_string_util.hpp:84 | what contains a string is that string between two others |
| `Splitters.ContainsBetween` | include/essence/meta/literal_string_util.hpp:84 | and a string between two others is contained |
| `Splitters.NoPieceContains` | include/essence/meta/literal_string_util.hpp:77-106 | no piece contains the delimiter |
| `Splitters.PiecesAreUnique` | include/essence/meta/literal_string_util.hpp:77-106 | a list of strings is the result if and only if it cuts the string at the leftmost delimiters |
| `Splitters.SplitOf` | include/essence/meta/literal_string_util.hpp:40-61 | counting delimiter characters gives the size of the array that the loop fills exactly |
| `Splitters.CountsAgree` | include/essence/meta/literal_string_util.hpp:44-46 | there is one piece more than there are delimiter characters |
| `Splitters.SplitOfIsUnique` | include/essence/meta/literal_string_util.hpp:40-61 | a list of strings is the result if and only if it cuts the string at just the characters of the group |
| `Splitters.SplittersAgree` | include/essence/meta/literal_string_util.hpp:40-106 | on a single delimiter character both splitters yield the same |
| `Splitters.RemoveChar` | include/essence/meta/literal_string_util.hpp:129-141 | in place, the other characters are moved to the front in order, and their number is returned |
| `Splitters.RemovedLength` | include/essence/meta/literal_string_util.hpp:161-169 | removing a substring, by putting the pieces together, costs its length once for every joint |
| `Splitters.RemoveOneChar` | include/essence/meta/literal_string_util.hpp:122-169 | removing a character and removing the string of just that character yield the same |

## Left out

- ChainProcessors.ChainProcessor.Update: takes as given that each stage's output fits into a half of the buffer pair; the chain is sized stage by stage, so a long chain of growing stages may not fit. `RoomForChain`, `RoomForSlack` and `CipherThenBase64` give conditions on the leaves that suffice.
- ChainProcessors.ChainProcessor.Finalize: takes as given that each stage's U and F parts together fit into the finalization buffer, for the same reason.
- Chains inside chains and chains under the provider or the stream buffer: a chain returns a span of its own buffers, which its callers there do not expect.
- CipherStreams.CipherStreambuf.Init: takes as given that the processor's outputs fit its buffer and that the put area is not empty and has fewer than 2^31 bytes; after an explicit finalization that is not part of a close the invariant is not restored, so nothing is stated about what follows it.
- CipherProviders.ProcessData: the longest block of the cipher library (EVP_MAX_BLOCK_LENGTH) is a parameter, and the outputs are taken to fit; the Base64 overloads around it only convert.
- LeafProcessors.Leaf.Update: stands for the interface of a processor; that the helper for the cipher library cuts sizes to 32 bits, and that the library may fail, is not modelled.
- LeafProcessors.Leaf.Finalize: stands for the interface of a processor in the same way.
- The ciphers, digests, key handling and Base64 code are calls into a library.
- ParallelFors.Termination: bounds the steps of the protocol; that a handler returns is taken as given. Starting the threads, and an empty handler, are not modelled.
- ParallelForView.RefinesSingleThread: is about handlers that neither exit nor throw and change only their own element.
- InterruptableTimers.TimerSafety: assumes sequential consistency, one controlling thread, callbacks that do not call `start` or `stop`, and cells already initialised; the order of construction (`src/interruptable_timer.cpp:54-56` starts the thread before the cells are set), the destructor and lost notifications are left out.
- DelegateReaders.SnapshotInvocation: assumes one writing thread and sequential consistency; handlers may change the delegate, but two threads may not do so at once.
- Delegates.Delegate.Append: a delegate is not appended to itself (the source iterates over the list it extends), and the shared 64-bit counter does not wrap.
- Delegates.InvokeForResult: that arguments are moved into the first call is not modelled.
- LanguageFiles.ToBytes: stands for the file writer too, which writes the same bytes; JSON parsing and the Base64 form are left out.
- LanguageFiles.ParseLanguageFile: of the errors of opening a file only "does not exist" is modelled.
- ArgParsers.ArgParser.GiveOne: parsing, range checks and validation of a single value are one predicate of the option (`accepts`), since the success flag of range options is read before their lazy views run.
- ArgParserLaws.ResultIsComplete: takes bound names that are trimmed as one call of `set_bound_name` leaves them; the derivation of aliases and hyphenated names in option.cpp is left out.
- ArgParsers.ArgParser.ParseArgsAndCache: showing the help and ending the program is one outcome (`HelpShown`); error messages are left out.
- ServerSentEvents.ParseStream: works on the complete lines delivered before the stream is closed. What the loop does when the reader reports the end of the stream and more data arrives after all, namely taking the partial or empty line it has read for a whole one, is left out, since a closed stream delivers nothing more; so are cancellation, timeouts and HTTP.
- RationalsInt64.Add: the bound of 2^31 on all parts is taken as given, as it is for the other operations there; larger parts may overflow in the source.
- RationalsInt64.TryCeil: takes a positive denominator, which every simplified fraction has.
- Rationals.SimplifyInPlace: works on two local variables, the fields of a struct that is passed by value; the fraction 0/0, which the source divides by zero, is excluded by a non-zero denominator.
- BufferSizes.OutputBufferExactly: takes a factor with a positive denominator, as simplification leaves it; a factor of zero or below is the subject of `NothingForZeroFactor`.
- IPv6 addresses: the parser is a stub and the printer drops isolated zero groups, so no general round trip holds.
- File systems, HTTP, redirection of standard streams, JNI, image headers, compression wrappers, encodings, compile-time reflection, logging, and tables of colours: input and output, foreign calls, or members that are easy.
