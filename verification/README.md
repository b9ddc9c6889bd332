# A model of the sponge networking core

This project models, in Dafny, the parts of libsponge that carry state, loops or arithmetic, and
proves what they are for. `dafny verify dfyconfig.toml` checks all of it.

| file | models |
|---|---|
| `Bytes.dfy` | bytes, exceptions, strings in pieces |
| `Checksum.dfy`, `ChecksumLaws.dfy` | `InternetChecksum`, and sections 1 and 2 of RFC 1071 |
| `Streams.dfy` | `ByteStream`: a ring buffer proved to be a bounded queue |
| `Buffers.dfy`, `Sharing.dfy` | `Buffer`, `BufferList`, `BufferViewList`; the shared storage under them |
| `Descriptors.dfy` | `FileDescriptor`, its shared record, and the short-write loop |
| `Parsing.dfy` | `NetUnparser` and `NetParser` |
| `Events.dfy`, `EventLaws.dfy` | `EventLoop`, one call and whole runs |
| `Packets.dfy` | all of them together: stamp a packet, send it, verify and read it |

## How the model is made

Objects whose methods change their fields are classes with those fields, and their loops are loops.
Each is proved against a specification on values, and the properties are lemmas about the
specification.

- **Checksum.** The accumulator is 32 bits wide and wraps; every law says exactly when the wrap
  matters. `Reference` is the word-by-word sum with end-around carry of RFC 1071. Shifts and masks
  are written as division and remainder by powers of two.
- **ByteStream.** `Fifo` is the queue with the history of what was accepted and what was popped. The
  class keeps a ghost `view` of that type and `Valid` ties the array, `sind` and `eind` to it. `Ring`
  is the state machine of the three `int` fields alone; the overflow bound is proved of it.
- **Buffers.** A string in pieces is a sequence of sequences. What a Buffer shares with its copies
  never changes, so the class holds it as a value; `Sharing` has the storages, reference counts and
  handles explicitly and proves that this reading cannot be told from the real one.
- **Write loop.** The kernel answers each `writev` with any count; `Answers` records them. Nothing is
  assumed of them: `Wrote` says which answers make the loop throw.
- **Event loop.** Interest, callback and cancel functions leave any world that descriptors can reach
  (counters grow, flags are only set), and `poll` does anything; a `Log` in the world has every such
  call. A ghost `Trace` has the visits to rules and the worlds between them; `Justified` says what the
  code decides and calls at one rule; what this amounts to over lists, passes, calls and runs is proved.

Where the code and its comments differ, the model follows the code.

- libsponge/util/eventloop.hh:44 says that success means a triggered rule: see `SuccessTriggersIff`
  and `SuccessWithoutTrigger`.
- libsponge/util/eventloop.cc:46 says that an error during polling throws: that is so of an error
  reported on a descriptor, unless a busy wait throws first, and not of a failure of `poll` itself:
  see `ErrorThrownIff` and `WhereItThrew`.
- libsponge/byte_stream.hh:8-10 says that nothing can be written after the input ended; `write` does
  not look: see `WrittenAfterTheEnd` for an input, and `NothingAcceptedIff` for when nothing is taken.
- The parser's error is called sticky; being in error is, the kind of error is not: see
  `InErrorNothingHappens`.

## Model

| member | source | states |
|---|---|---|
| `Bytes.FlattenAppend` | libsponge/util/buffer.cc:34-41 | the string of two lists in a row is the one string and then the other |
| `Checksum.WeightAppend` | libsponge/util/util.cc:89-98 | the sum of a string splits at any byte, the parity carried across |
| `Checksum.FoldIsCanonical` | libsponge/util/util.cc:100-108 | the folded sum is the only 16-bit number congruent to the sum modulo 0xffff that is 0 exactly when the sum is 0 |
| `Checksum.CarriesBackIn` | libsponge/util/util.cc:103-105 | one round of the fold changes nothing modulo 0xffff, and two rounds end it for every 32-bit sum |
| `Checksum.InternetChecksum.constructor` | libsponge/util/util.cc:87 | the sum starts at the initial sum, at an even position |
| `Checksum.InternetChecksum.Add` | libsponge/util/util.cc:89-98 | the wrapping byte loop leaves the unbounded sum of the data reduced modulo 2^32, and the parity of its length |
| `Checksum.InternetChecksum.Value` | libsponge/util/util.cc:100-108 | the loop returns the complement of the canonical representative, in at most two rounds, none when the sum is short |
| `ChecksumLaws.ChunksDoNotMatter` | libsponge/util/util.cc:89-98 | however the data is cut into calls of add, odd and empty pieces included, the state is the same |
| `ChecksumLaws.WordsFold` | libsponge/util/util.cc:89-108 | adding words with end-around carry gives the fold of the unbounded sum |
| `ChecksumLaws.FoldAfterWrap` | libsponge/util/util.cc:95 | the fold after reducing modulo 2^32 is right exactly when the carries lost do not show |
| `ChecksumLaws.DeferredCarries` | libsponge/util/util.cc:89-108 | section 2 of RFC 1071: deferred carries give the end-around-carry checksum for every data and every cutting, exactly when the wrap goes unnoticed; always when there is none |
| `ChecksumLaws.WrapLosesACarry` | libsponge/util/util.cc:95 | an input on which the wrap gives another value |
| `ChecksumLaws.ExampleOfTheRfc` | libsponge/util/util.cc:89-108 | the bytes of section 3 of RFC 1071 have the checksum given there, as the code sums them and word by word |
| `ChecksumLaws.NeverWrapsIff` | libsponge/util/util.cc:89-98 | no string of a length wraps the accumulator exactly if the all-ones string of that length does not |
| `ChecksumLaws.LongestSafeInput` | libsponge/util/util.cc:89-98 | from sum 0 no input wraps exactly for lengths up to 131074 bytes |
| `ChecksumLaws.PrefixWeighsLess` | libsponge/util/util.cc:91-97 | a bound for the whole holds at every byte on the way |
| `ChecksumLaws.GenerateAndVerify` | libsponge/util/util.cc:77-83 | section 1 of RFC 1071: with f in the field, the packet verifies exactly if f is the checksum c of the blank packet, or if c is 0, f is 0xffff and the sum of the blank packet is not 2^32 - 1 |
| `ChecksumLaws.OwnChecksumFits` | libsponge/util/util.cc:95 | the checksum of a sum, added to it, never wraps the accumulator |
| `ChecksumLaws.MinusZeroFailsAtTheTop` | libsponge/util/util.cc:95 | an input with sum 2^32 - 1 and checksum 0 where 0xffff in the field does not verify |
| `ChecksumLaws.InsertedChecksumVerifies` | libsponge/util/util.cc:81-83 | the value returned, put in the field, verifies: for every initial sum, data, length and even offset |
| `ChecksumLaws.WeightIsSumOfWords` | libsponge/util/util.cc:91-97 | byte by byte or word by word, the sum is the same |
| `ChecksumLaws.WordOrderDoesNotMatter` | libsponge/util/util.cc:89-108 | section 2(A) of RFC 1071: permuted words, the same value |
| `ChecksumLaws.SwappedWeight` | libsponge/util/util.cc:92-95 | exchanging the bytes of all words multiplies the sum by 256 modulo 0xffff |
| `ChecksumLaws.ByteOrderIndependence` | libsponge/util/util.cc:89-108 | section 2(B) of RFC 1071: bytes of all words exchanged, bytes of the value exchanged, exactly when both sums lose their carries alike; always when neither wraps |
| `ChecksumLaws.LongDataNeedNotSwap` | libsponge/util/util.cc:89-108 | for every even length past 131074, data on which it fails |
| `ChecksumLaws.ByteOrderByLength` | libsponge/util/util.cc:89-108 | by length: it holds of all data of an even length exactly for lengths up to 131074 |
| `Streams.FormulaCounts` | libsponge/byte_stream.cc:84-92 | the truncated-modulus formula counts the slots from sind around to eind, full ring included |
| `Streams.HoldsOneMore` | libsponge/byte_stream.cc:39-42 | a byte written behind the last one leaves the queue with one more and all others in place |
| `Streams.TakeRepresents` | libsponge/byte_stream.cc:60-69 | moving sind, or setting it to -1, leaves the queue without its front |
| `Streams.WriteLands` | libsponge/byte_stream.cc:33-42 | the indexes after a write, drain and refill included, and that they stand for the longer queue |
| `Streams.ByteStream.constructor` | libsponge/byte_stream.cc:15-23 | an empty queue of the capacity, as an int |
| `Streams.ByteStream.WriteBytes` | libsponge/byte_stream.cc:25-46 | accepts what fits, in order, and says how much; the indexes after it |
| `Streams.ByteStream.Store` | libsponge/byte_stream.cc:39-42 | the loop puts the bytes behind the queue, across the end of the array |
| `Streams.ByteStream.PeekOutput` | libsponge/byte_stream.cc:49-57 | the front of the queue, at most len bytes |
| `Streams.ByteStream.PopOutput` | libsponge/byte_stream.cc:60-69 | removes the front, at most len bytes, and counts it |
| `Streams.ByteStream.ReadBytes` | libsponge/byte_stream.cc:74-78 | returns the front and removes it |
| `Streams.ByteStream.EndOfInput` | libsponge/byte_stream.cc:80 | the input has ended; nothing else changes |
| `Streams.ByteStream.Fail` | libsponge/byte_stream.hh:47 | the error flag is set; nothing else changes |
| `Streams.ByteStream.BufferSize` | libsponge/byte_stream.cc:84-92 | the length of the queue |
| `Streams.ByteStream.RemainingCapacity` | libsponge/byte_stream.cc:102 | size and room add up to the capacity |
| `Streams.ByteStream.Eof` | libsponge/byte_stream.cc:96 | ended and nothing left |
| `Streams.Inspect` | libsponge/byte_stream.cc:80-102 | every accessor says what the queue and its history say |
| `Streams.Perform` | libsponge/byte_stream.cc:25-102 | each operation changes the queue and answers as the specification does |
| `Streams.Run` | libsponge/byte_stream.cc:15-102 | every run, from the constructor on, answers as the bounded queue does, reply by reply |
| `Streams.Conservation` | libsponge/byte_stream.cc:44-102 | in every state of every run: accepted is popped and then queued, histories only grow, counters and sizes add up, eof means all was read |
| `Streams.RunTold` | libsponge/byte_stream.cc:25-78 | told by operations and replies alone, at every operation of every run: a write takes all there is room for, the bytes peeked and read are the input in order from where reading stands, as many as asked or as there are |
| `Streams.AccessorsTold` | libsponge/byte_stream.cc:80-102 | and what every accessor says then: counters and sizes follow from that input and what was read, ended and error say whether they were ever announced, eof that the end was and everything is read |
| `Streams.EofIff` | libsponge/byte_stream.cc:96 | after any run from any state: eof exactly if the end was announced and all that was accepted is popped |
| `Streams.RemTruncates` | libsponge/byte_stream.cc:90 | the remainder belongs to the quotient truncated toward zero, with the sign of the dividend |
| `Streams.EofIsPermanentIff` | libsponge/byte_stream.cc:25-96 | at eof, a stream with room stays there exactly if only empty writes follow |
| `Streams.NothingAcceptedIff` | libsponge/byte_stream.cc:25-31 | over any run from any state, ended or not, no byte is accepted exactly if every write is empty or finds the stream full at its turn |
| `Streams.WrittenAfterTheEnd` | libsponge/byte_stream.cc:25-46 | a stream whose input has ended, with a byte left and room for one, accepts a write |
| `Streams.NoSignedOverflowIff` | libsponge/byte_stream.cc:34-92 | no int computed by write or buffer_size overflows in any run, exactly for capacities up to 2^30 |
| `Buffers.DropDrops` | libsponge/util/buffer.cc:51-65 | dropping from the pieces drops from the string, and fails exactly beyond its end, wherever empty pieces stand |
| `Buffers.DropTwice` | libsponge/util/buffer.cc:51-65 | two prefixes removed are one, piece by piece |
| `Buffers.PiecesLeft` | libsponge/util/buffer.cc:51-65 | which pieces are left: those behind the one in which the prefix ends, and the rest of that one if anything is left of it |
| `Buffers.Buffer.constructor` | libsponge/util/buffer.hh:23 | shows the whole string |
| `Buffers.Buffer.RemovePrefix` | libsponge/util/buffer.cc:5-13 | shows n bytes less, or throws and changes nothing; lets go of the storage at its end |
| `Buffers.BufferList.constructor` | libsponge/util/buffer.hh:70-73 | one piece, the string |
| `Buffers.BufferList.PushBack` | libsponge/util/buffer.cc:17 | a copy at the end, an object of its own |
| `Buffers.BufferList.Append` | libsponge/util/buffer.cc:15-19 | the pieces of the other list behind, as copies; the other list is as it was |
| `Buffers.BufferList.AsBuffer` | libsponge/util/buffer.cc:21-32 | the same string for up to one piece, an exception for more |
| `Buffers.BufferList.Concatenate` | libsponge/util/buffer.cc:34-41 | the string of the pieces |
| `Buffers.BufferList.Size` | libsponge/util/buffer.cc:43-49 | its length |
| `Buffers.BufferList.RemovePrefix` | libsponge/util/buffer.cc:51-65 | the pieces that dropping leaves, or an exception and an empty list |
| `Buffers.BufferViewList.constructor` | libsponge/util/buffer.hh:114 | one view, the string |
| `Buffers.BufferViewList.FromList` | libsponge/util/buffer.cc:67-71 | a view of each piece |
| `Buffers.BufferViewList.RemovePrefix` | libsponge/util/buffer.cc:73-87 | the views that dropping leaves, or an exception and no views |
| `Buffers.BufferViewList.Size` | libsponge/util/buffer.cc:89-95 | the length of the string of the views |
| `Buffers.BufferViewList.AsIovecs` | libsponge/util/buffer.cc:97-104 | a part for each view, in order |
| `Buffers.ViewsFollowTheList` | libsponge/util/buffer.cc:51-104 | viewing and then dropping is dropping and then viewing, in outcome and view by view |
| `Sharing.ReleaseKeepsHandle` | libsponge/util/buffer.cc:10-12 | when a handle lets go, another keeps its storage and what it shows |
| `Sharing.HoldIsSound` | libsponge/util/buffer.hh:16-17 | a copy is counted, and shows what it was copied from |
| `Sharing.StepIsUnobservable` | libsponge/util/buffer.cc:5-13 | one operation on shared storage shows what it would show on strings of one's own |
| `Sharing.StepShows` | libsponge/util/buffer.cc:5-13 | what each operation does to what the handles show, when it throws, that a copy makes no storage and that an exhausted handle lets go of its own |
| `Sharing.SharingIsUnobservable` | libsponge/util/buffer.cc:5-19 | so does every run, and the same calls throw |
| `Sharing.StorageFreedWhenAllDiscarded` | libsponge/util/buffer.hh:46-47 | a non-empty string stays in memory exactly while some copy has bytes of it left |
| `Descriptors.FDWrapper.Close` | libsponge/util/file_descriptor.cc:21-24 | closed and at eof; nothing else changes |
| `Descriptors.FileDescriptor.Duplicate` | libsponge/util/file_descriptor.cc:45 | a new handle on the same record |
| `Descriptors.FileDescriptor.WriteOnce` | libsponge/util/file_descriptor.cc:80-95 | one writev: a count of 0 for something and a count above what was offered throw, each its exception; any other is counted and dropped from the views; in every case what the kernel has received |
| `Descriptors.FileDescriptor.Write` | libsponge/util/file_descriptor.cc:76-99 | fails exactly on a dishonest answer; returning or throwing, the kernel has a prefix of the contents, in order and once each, as long as its answers add up to; all of them if asked and it returns, in at most max(1, size) calls, each accepted one counted |
| `Descriptors.HonestStep` | libsponge/util/file_descriptor.cc:79-96 | an honest answer keeps total and remaining adding up, and decides whether the loop goes on |
| `Descriptors.DishonestStep` | libsponge/util/file_descriptor.cc:83-89 | a count of 0 for something, or of more than offered, ends it with the exception for it |
| `Descriptors.LastAnswerDecides` | libsponge/util/file_descriptor.cc:79-98 | every outcome of write, told by the last count and the sum of those before it; there is a further call only while something is left and all is to be written |
| `Parsing.NumberComesBack` | libsponge/util/parser.cc:26-60 | reading the digits of a number gives the number |
| `Parsing.DigitsComeBack` | libsponge/util/parser.cc:26-60 | the digits of the number read are the digits read |
| `Parsing.DigitByShift` | libsponge/util/parser.cc:57 | shifting and masking finds each digit, most significant first |
| `Parsing.UnparseInt` | libsponge/util/parser.cc:53-72 | appends the digits of the number, as many as its type has |
| `Parsing.NextDigit` | libsponge/util/parser.cc:34-38 | no digit shifts out of the type |
| `Parsing.OneByte` | libsponge/util/parser.cc:66-72 | u8 is one byte, printed, read and consumed |
| `Parsing.TwoBytes` | libsponge/util/parser.cc:64-70 | u16 is two, high byte first |
| `Parsing.FourBytes` | libsponge/util/parser.cc:62-68 | u32 is four, highest first |
| `Parsing.TooShort` | libsponge/util/parser.cc:20-32 | with fewer bytes than that: 0, nothing consumed, too short |
| `Parsing.NetParser.constructor` | libsponge/util/parser.hh:38 | the bytes of the buffer, no error |
| `Parsing.NetParser.CheckSize` | libsponge/util/parser.cc:20-24 | too short exactly if more is asked for than there is |
| `Parsing.NetParser.ParseInt` | libsponge/util/parser.cc:26-43 | the big-endian number in front, and it is consumed; 0 and nothing consumed in error |
| `Parsing.NetParser.RemovePrefix` | libsponge/util/parser.cc:45-51 | n bytes consumed, or an error and nothing consumed |
| `Parsing.PrintThenParse` | libsponge/util/parser.cc:26-72 | for every list of fields and every suffix: what was printed is read back, and the suffix is left |
| `Parsing.ServedIff` | libsponge/util/parser.cc:20-51 | any run of reads and remove_prefix calls succeeds exactly if there are bytes enough for all of it, and then as many are consumed |
| `Parsing.ParseThenPrint` | libsponge/util/parser.cc:26-72 | printing what was read gives exactly the bytes consumed |
| `Parsing.InErrorNothingHappens` | libsponge/util/parser.cc:20-51 | in error, over any run of reads and remove_prefix calls: reads return 0, nothing is consumed, the error stays; its kind stays exactly if it is "too short" or every request would fit |
| `Events.EventLoop.constructor` | libsponge/util/eventloop.hh:39 | no rules |
| `Events.EventLoop.AddRule` | libsponge/util/eventloop.cc:23-29 | the rule at the end of the list |
| `Events.WalkOn` | libsponge/util/eventloop.cc:67-142 | at every step of either loop the list is the survivors so far and then the rules not yet visited, so the rule at the iterator is the one at the index |
| `Events.EventLoop.CallBack` | libsponge/util/eventloop.cc:131-138 | interest is asked again exactly if the callback left the counter alone |
| `Events.EventLoop.CancelAndErase` | libsponge/util/eventloop.cc:71-72 | cancel runs on the rule, and that one is erased |
| `Events.EventLoop.SetUpOne` | libsponge/util/eventloop.cc:68-88 | one rule in the first loop: cancelled and erased at eof for reading or closed, otherwise asked for interest and given its pollfd |
| `Events.EventLoop.DispatchOne` | libsponge/util/eventloop.cc:110-141 | one rule in the second loop: an error throws, a mere hangup cancels and erases, readiness calls back, a busy wait throws |
| `Events.EventLoop.SetUp` | libsponge/util/eventloop.cc:61-89 | each rule visited once and in order, each as the code decides it; what stays is the list, with its pollfds |
| `Events.EventLoop.Dispatch` | libsponge/util/eventloop.cc:107-144 | the second loop meets the rules and pollfds of the first pairwise, each with its own poll result; where it ends, and what is in the list then |
| `Events.EventLoop.WaitNextEvent` | libsponge/util/eventloop.cc:61-145 | the whole call: both passes, poll between them, the result for each outcome; the list stays the rules added and not cancelled |
| `Events.SurviveOrCancelled` | libsponge/util/eventloop.cc:67-142 | a rule visited is kept or cancelled, never both or neither |
| `Events.PassKeepsTrace` | libsponge/util/eventloop.hh:39 | a pass visits live rules only, and takes exactly the cancelled ones from the live |
| `EventLaws.OrderIsKept` | libsponge/util/eventloop.cc:67-142 | survivors, cancelled and called rules are in list order |
| `EventLaws.FirstPassCancelsTheDoomed` | libsponge/util/eventloop.cc:67-80 | cancelled in the first pass: exactly those at eof for reading or closed when their turn comes |
| `EventLaws.PollFdsBelongToRules` | libsponge/util/eventloop.cc:82-87 | the i-th pollfd has the descriptor of the i-th rule left, and asks for POLLIN for In, POLLOUT for Out, or for nothing |
| `EventLaws.SecondPassFollowsPoll` | libsponge/util/eventloop.cc:109-142 | kept, cancelled and called in the second pass are decided by each rule's own poll result alone |
| `EventLaws.NothingLost` | libsponge/util/eventloop.cc:61-145 | after any call, thrown or not: the old list is the new one and the rules cancelled, once each |
| `EventLaws.LogTellsCancels` | libsponge/util/eventloop.cc:67-142 | the log has exactly one run of cancel for each cancellation of a trace |
| `EventLaws.LogTellsCalls` | libsponge/util/eventloop.cc:129-132 | and exactly one of the callback for each rule called |
| `EventLaws.CancelRunsOncePerRemoval` | libsponge/util/eventloop.cc:67-142 | in a call, cancel runs once on each rule that left the list, and on no other |
| `EventLaws.LogKeepsOrder` | libsponge/util/eventloop.cc:129-132 | the callbacks in the log are, in order, those of the rules called |
| `EventLaws.CallbacksOfCall` | libsponge/util/eventloop.cc:107-142 | in a call, however it ends, the callbacks added to the log are those of its second pass, in list order and once each; on Success, exactly those of the ready rules; without results, none |
| `EventLaws.CallAccounts` | libsponge/util/eventloop.cc:61-145 | without an exception: order kept, removed exactly the doomed and the hung up, callbacks exactly those of the ready, once and in order |
| `EventLaws.SuccessTriggersIff` | libsponge/util/eventloop.hh:44 | Success has triggered a rule exactly if some result has an event that its pollfd asked for |
| `EventLaws.SuccessWithoutTrigger` | libsponge/util/eventloop.cc:96-105 | a call that returns Success and triggers nothing |
| `EventLaws.WhereItThrew` | libsponge/util/eventloop.cc:109-139 | an exception comes from the last rule visited: no rule before it had an error; an error of its own is thrown as such, otherwise it was ready and a busy wait |
| `EventLaws.ErrorThrownIff` | libsponge/util/eventloop.cc:101-115 | unless a busy wait throws first, the error is thrown exactly if poll has results and one of them has POLLERR or POLLNVAL |
| `EventLaws.BusyWaitThrownIff` | libsponge/util/eventloop.cc:129-139 | a busy wait is thrown exactly if the last visit asked a rule again and found it interested: a ready one whose callback left the read count (In) or the write count (Out) of its descriptor as it was |
| `EventLaws.FirstVisit` | libsponge/util/eventloop.cc:68-88 | one rule in the first loop, in fields and flags: cancelled exactly at eof for reading or closed; otherwise asked for interest, and polled for POLLIN or POLLOUT exactly if interested |
| `EventLaws.SecondVisit` | libsponge/util/eventloop.cc:112-141 | one rule in the second loop, in flags: POLLERR or POLLNVAL throws before anything is called; an event asked for calls back even with a hangup; a hangup alone cancels; otherwise nothing |
| `EventLaws.ServedByItsCounter` | libsponge/util/eventloop.cc:13-15 | after its callback a rule is asked again exactly if the read count (In) or the write count (Out) of its descriptor did not grow |
| `EventLaws.OutcomeFollowsPoll` | libsponge/util/eventloop.cc:92-105 | a call polls exactly if some rule is interested; Exit is without a poll or after a signal, Timeout after none was ready, and both leave the list as the first loop did |
| `EventLaws.CloseAdvances` | libsponge/util/file_descriptor.cc:21-24 | closing is one of the steps the loop allows its functions |
| `EventLaws.WriteAdvances` | libsponge/util/file_descriptor.cc:76-99 | writing is, too, whatever its outcome; a write that returns moves the counter that the busy-wait check looks at |
| `EventLaws.ReadAdvances` | libsponge/util/file_descriptor.cc:49-65 | what a read does to the counter and the eof flag is such a step |
| `EventLaws.LiveOrCancelledOnce` | libsponge/util/eventloop.hh:39 | a rule ever added is live or cancelled, and that once |
| `EventLaws.CancelledForGood` | libsponge/util/eventloop.cc:67-142 | over all calls: a rule is cancelled at most once and never visited after that |
| `EventLaws.KnownHasDescriptor` | libsponge/util/eventloop.cc:23-29 | over all calls, every rule ever added has a descriptor |
| `EventLaws.LogIsQuiet` | libsponge/util/eventloop.cc:67-142 | over all calls, the log says so: no interest, callback or cancel function of a rule runs after it was cancelled |
| `EventLaws.CancelRunsAtMostOnce` | libsponge/util/eventloop.cc:67-142 | over all calls, cancel runs at most once on a rule |
| `EventLaws.CallbacksAreBounded` | libsponge/util/eventloop.cc:129-139 | over all calls: callbacks of a rule are at most the growth of its descriptor's read count (In) or write count (Out) since it was added, the losses of interest after one, and the busy waits reported; none of a rule never added |
| `EventLaws.Run` | libsponge/util/eventloop.cc:23-145 | all this of every run of a loop that starts empty: the log it leaves is quiet, the callbacks in it bounded, the list the rules added and not cancelled |
| `Packets.PrintedField` | libsponge/util/parser.cc:53-70 | the printer writes the field that the checksum laws speak of |
| `Packets.Stamp` | libsponge/util/buffer.hh:52-55 | header and payload summed in two calls, the checksum printed into the header, the payload appended: the list is the packet with its checksum |
| `Packets.StampVerifies` | libsponge/util/util.cc:77-83 | every stamped packet verifies when summed from 0, at every length; up to 131074 bytes it carries the word-by-word checksum of RFC 1071, and that of the packet is 0 |
| `Packets.ShortDataByTheBook` | libsponge/util/util.cc:89-108 | up to 131074 bytes, what the code computes from sum 0 is the checksum of RFC 1071 |
| `Packets.StampReadsBack` | libsponge/util/parser.cc:26-51 | a parser that skips to the field reads the checksum there |
| `Packets.Send` | libsponge/util/file_descriptor.cc:76-99 | what the kernel received is header, two bytes filled in, and payload, or a prefix of it if the write threw; it verifies, reads back, and up to 131074 bytes what was filled in is the checksum of RFC 1071 |

## Left out

- System calls, sockets, addresses, TUN devices and the programs in apps: thin wrappers. What remains of them is an arbitrary count from `writev` and an arbitrary outcome of `poll`.
- Negative returns of system calls, `errno`, and the narrowing of `ssize_t` to `int` in `SystemCall`: counts from the kernel are natural numbers.
- `FileDescriptor::read`, `set_blocking`: they add only easy members. What a read that returns does to the counter and the eof flag is a step of the loop's world: see `ReadAdvances`.
- `NetParser::set_error` by a caller, which can also clear an error: runs of the parser are reads and `remove_prefix`.
- `hexdump`, `timestamp_ms`, `get_random_generator`, `as_string`, `tagged_error`: output, clock, randomness and text.
- Streams.ByteStream.constructor: does not model capacities whose `int` is negative, for which the string constructor throws; others are taken modulo 2^32, as the code does.
- Streams.ByteStream.BufferSize: computes on unbounded integers; for capacities above 2^30 the C++ expression can overflow, as NoSignedOverflowIff says, and then has no defined value.
- Wrap of the `size_t` byte counters and of the `unsigned` service counters: natural numbers.
- Buffers.BufferList.Append: does not model a list appended to itself, which the code would walk while it grows.
- Events.EventLoop.WaitNextEvent: does not model callbacks that call `add_rule` during the call, nor exceptions thrown by them; the second pass counts on one pollfd for each rule.
- Bit masks: poll events and results are sets of the five flags the code looks at.
- Life time of the string under a `BufferViewList`: views are values, and the storage they look into is not freed under them.
- `add_cancelable_rule` and callbacks that return a value, which comments mention: they are not in the code.
- TCP, reassembler and router code named in etc/tests.cmake: not in the repository.
