# SimpleWeb, modelled and proved

SimpleWeb is a small web server: a reactor loop hands events to a thread pool, workers parse HTTP/1.x
requests from buffered descriptors, serve files from an LRU cache and send them with short writes, and a
logger is flushed once a round. This project models those parts in Dafny and proves what they keep, return
or guarantee, for every input and every interleaving.

The model follows the code as it is written, including what looks unintended. Where a natural property
fails of the code, the project proves exactly when it holds, with an input or a schedule on which it does not. The
findings of that kind:

* **Rounds that hang.** A push over a queue of more than one task happens without the queue's mutex, so its
  notification can fall between a worker's test and its sleep, and be lost. For any number of workers, no
  schedule hangs a round, as long as no round has more than b events, iff b is at most 1
  (`PoolHang.RoundsCompleteExactly`). One event a round is safe because the first push of every round takes
  the locked branch, over at most one task (`FirstPushIsLocked`); after rounds of one event, a round of two can hang
  (`TwoEventsCanHang`). With every push under the mutex (`Config.locked`) rounds of any size complete
  (`EveryBatchCompletes` covers both cases).
* **The forgotten name.** `fileNode`'s constructor does not store the path that eviction erases from the
  map. The program goes wrong exactly at the first request for an evicted path (`AsWrittenExactly`). The
  linked-list model stores the path, as eviction expects.
* **Empty field values** are stored as one NUL; printing and reading exchanges that with the empty string.
  The head round trip holds exactly without them (`RoundTripExactly`), and always after two rounds;
  `BlankValueIsExchanged` is the shortest input that does not come back.
* **A printed request is not a request.** The printer never writes the empty line that ends a head, so what it
  prints, in front of anything without a line feed, is never parsed to its end (`PrintedHeadIsUnfinished`).
* **Line breaks in a form body** do not reset the index, so the next key is written behind, or over, what is
  left of the one before. Pairs on any number of lines are read as they are iff every break between two of
  them has an empty value before it, or a value longer than a key that the two pairs share
  (`LinesExactly`): `a=1` and `b=2` on two lines give the keys `a` and `ab` (`SecondLineIsGlued`).
* **A byte 255 at the start of a read** is returned as a negative `char` and taken for the end of input
  (`DeliversAllExactly`), even if it is all that was sent (`Byte255EndsTheInput`).
* **The file sender** doubles its chunk without looking at what remains or at the range of an int. Whatever the
  socket does, a finished send is the file iff the file is empty, nothing can be read behind it, or its size
  truncated to an int is not positive, when no send finishes (`SendsTheFileExactly`). Over short writes that
  each take something a file goes out iff it has at most 27 bytes (`ShortWritesFinishExactly`): beyond, the
  chunk can become negative, and then nothing is sent any more. A send under way is lost exactly when the
  chunk has outgrown an int, failures counted (`StuckExactly`). With the chunk clamped to what remains it sends
  exactly the file, of any size (`ClampedSendsExactlyTheFile`).

A worker that reads -1 in `taskcnt` leaves its loop. The counter takes that value in ordinary runs too
(`StopValueOccurs`); it is harmless because a worker that saw a task never reads it (`NoWorkerEverLeaves`).

## Files

| file | content |
|---|---|
| `PoolMachine` | pool, reactor and logger as one machine of atomic steps; runs and reachability |
| `PoolInvariant`, `PoolSafety` | the inductive invariant and what it gives: counter, stop value, queue index, order |
| `PoolLogging` | what the logger's queue and file hold; the barrier at the end of a round |
| `PoolProgress` | lost wake-ups, rounds of one event, the measure that falls, completion of rounds |
| `PoolHang` | the hang in pools of every size, and the exact condition for completion |
| `Reactor` | `emplace_back`, `handle_events`, a worker's turn and `Logger` as methods, with everybody else interfering at every access |
| `Chars`, `Fields` | character classes and C strings; the field map and its printer |
| `RequestHead` | the two byte machines of the request head and the head printer |
| `LineExactly`, `HeaderExactly` | the request head segment by segment: which characters and lengths are taken, stored, skipped and refused |
| `HeadSoundness`, `HeadRoundTrip` | what a parse can produce and where it stops; printing and reading back |
| `HttpRead`, `HttpWrite` | the same parser and printer as they run, over arrays, streams and objects |
| `FdStream` | the descriptor buffer with its putback area, streams on it, segmentation |
| `Form`, `HttpForm`, `QueryRoundTrip` | the `key=value&...` parser and printer, as text and as they run, and through a request line |
| `FormExactly` | which characters and lengths of a form are taken and refused, and what is counted |
| `FileBody` | sending a file over short writes, as written and clamped |
| `LruSpec`, `FileCache`, `CacheAsWritten` | the cache as recency order, as linked list and map, and with the constructor as written |

## Modelling decisions

* Pool: one step of the machine is one access to shared memory, or a critical section under one mutex. The
  list operations the program performs outside the mutex are taken as atomic. `Wake` is a spurious wake-up.
  A handler is the list of messages it logs; it terminates and does not throw.
* A message in the logger carries its author as a history variable. Messages of different workers may
  interleave; the file keeps the order in which they were logged.
* Parser buffers are real arrays in `HttpRead`, `HttpForm` and `FdStream`. Where the program writes past one
  without a check, the model returns `Overrun` (or no return value); nothing is claimed about what follows.
* Uninitialised form buffers are parameters; the round trips hold whatever they contain.
* Characters are Dafny characters; the program's bytes are those below 256. `isprint` is that of the C
  locale.
* `Reactor.Server.Happens` and `FileBody.Socket.Sputn` are the environment: somebody else's step, and what
  write(2) does. They state what may happen and claim nothing about the program.
* A negative chunk becomes a byte count above `SSIZE_MAX`; such a write fails, with EFAULT or with another
  error, and both are covered. "Behind the file" is any memory readable after it, such as the rest of its last
  page.
* `memcpy` in the refill is modelled as a move, since its regions can overlap.
* Reading `read_header_line`: the unconditional `break` at line 213 makes the checks behind it, and the state
  `s_done`, dead; the model follows the code.
* The printer of a request ends without the blank line, so round trips append CRLF. Its byte count is two
  short for every field, and the contracts say so.
* Cache capacity: 0 is excluded (the program would take the last entry of an empty list); a negative one
  never evicts.

## Model

| member | source | states |
|---|---|---|
| PoolInvariant.StepKeepsInv | src/ThreadPool.cpp:17-44 | every step of the reactor or of any worker, in any interleaving, keeps the accounting of tasks, queues, counter and futures |
| PoolInvariant.NeverReadsStop | src/ThreadPool.cpp:20-24 | a worker that saw its queue non-empty finds the counter non-negative, however long it waited before loading it |
| PoolInvariant.PickIsNonNegative | src/ThreadPool.hpp:43 | when a queue index is computed, everything pushed has been counted, so the dividend is not negative |
| PoolInvariant.ReadyMeansDrained | src/Reactor.cpp:85-87 | once every future so far is ready, no queue holds a task that has not run |
| PoolSafety.CounterIsExact | src/ThreadPool.hpp:43-54 | in every reachable state the counter is queued tasks plus popped but undecremented ones, minus one that is pushed but uncounted |
| PoolSafety.StopValueExactly | src/ThreadPool.hpp:53-54 | the counter is never below -1, and is -1 iff a push is uncounted while all queues are empty and nothing is popped |
| PoolSafety.StopValueOccurs | src/ThreadPool.cpp:24-34 | for every pool size an ordinary run reaches -1 |
| PoolSafety.NoWorkerEverLeaves | src/ThreadPool.cpp:24-38 | no worker ever takes the stop branch, and the worker count stays the pool's size |
| PoolSafety.QueueIndexInRange | src/ThreadPool.hpp:43-44 | the truncating remainder is the ordinary one, and the queue index is always a queue |
| PoolSafety.CounterBounds | src/Reactor.cpp:74-87 | over unboundedly many rounds the counter stays between -1 and MAX_EVENT plus the pool's size, and between rounds at most one a worker |
| PoolSafety.RunsInSubmissionOrder | src/ThreadPool.cpp:18-34 | what a worker ran followed by what it still has is what was submitted to it, in submission order; only the front may have run already |
| PoolSafety.EachTaskOnce | src/ThreadPool.cpp:25-34 | every submitted task has run or waits at its own worker and nowhere else, and never twice |
| PoolSafety.BatchesExactly | src/Reactor.cpp:71-75 | a batch can be a round iff it has at most 1024 events |
| PoolSafety.ReadingTheStopValueLeaves | src/ThreadPool.cpp:24-38 | the counter value -1, were it read, and no other makes a worker leave and be counted off |
| PoolLogging.StepKeepsLog | src/Logger.cpp:12-27 | every step keeps the queue equal, per task, to what its handler has logged in this round, and the file equal to the finished rounds |
| PoolLogging.LogKeepsQueue | src/Logger.cpp:12-16 | a logged message becomes the next of its handler's in the queue, and nobody else's share changes |
| PoolLogging.FlushFindsTheWholeRound | src/Reactor.cpp:85-89 | at a flush every handler has returned and the queue holds exactly the round's messages, each task's in order |
| PoolLogging.LogIsRoundByRound | src/Logger.cpp:17-27 | the file is the concatenation of one chunk a round, each holding exactly the messages of that round's tasks |
| PoolLogging.OutputIsInLogOrder | src/Logger.cpp:12-27 | after any run file and queue together are exactly what was logged, in the order it was logged, by whomever |
| PoolLogging.FileIsTheRunsLog | src/Reactor.cpp:85-89 | so between rounds the file alone is the run's log, in order |
| PoolLogging.NothingLeftOver | src/Logger.cpp:20-26 | between rounds the queue is empty |
| PoolProgress.RoundsAreThePolls | src/Reactor.cpp:75 | a state reached by a run has only rounds of at most b events behind it iff the run polled no more than b at a time |
| PoolProgress.FirstPushIsLocked | src/ThreadPool.hpp:45-47 | the first push of every round, of however many events, finds at most one task in the queue and is made under the mutex, as every push is if pushes are locked |
| PoolProgress.NoWakeUpIsLost | src/ThreadPool.hpp:44-53 | with locked pushes, or as long as no round has more than one event, no worker sleeps or is about to sleep over a task it was not notified of |
| PoolProgress.OnlySleepersRest | src/ThreadPool.cpp:17-44 | a worker has no step to take iff it sleeps |
| PoolProgress.RestingMeansFinished | src/ThreadPool.cpp:20-22 | if nobody can move and no wake-up was missed, every task has run |
| PoolProgress.WorkerStepsCost | src/ThreadPool.cpp:19-34 | every worker step lowers one measure over queues, handlers and positions |
| PoolProgress.WorkIsBounded | src/ThreadPool.cpp:17-44 | so a run of worker steps is no longer than that measure, and the measure is never negative |
| PoolProgress.WaitingIsNotStuck | src/Reactor.cpp:85-87 | under the same condition, while a future is not ready some worker can move |
| PoolProgress.EveryBatchCompletes | src/Reactor.cpp:79-87 | with locked pushes, and as written as long as no round has more than one event, once the workers have taken their finitely many steps every future of the batch is ready |
| PoolHang.TwoEventsCanHang | src/ThreadPool.hpp:45-54 | in a pool of any size as written, a state that hangs is reached by rounds of one event and one of two: the reactor waits for a task in a sleeping worker's queue and nobody can move |
| PoolHang.RoundsCompleteExactly | src/ThreadPool.hpp:43-54 | for any number of workers, as written: no run whose rounds have at most b events hangs iff b is at most 1, and none loses a wake-up iff b is at most 1 |
| Reactor.Logger.Write | src/Logger.cpp:17-27 | moves the whole queue to the end of the file, oldest first |
| Reactor.Server.constructor | src/ThreadPool.cpp:10-14 | starts in the machine's initial state |
| Reactor.Server.TestQueue | src/ThreadPool.cpp:19-23 | under the mutex: a queue that has a task is seen to have one; otherwise the worker waits, or has been woken again |
| Reactor.Server.LoadCounter | src/ThreadPool.cpp:24-38 | the branch on the stop value: the worker always goes on to run |
| Reactor.Server.RunFront | src/ThreadPool.cpp:25 | the handler logs its messages one by one among all others' steps, and exactly the front of the queue has run |
| Reactor.Server.PopFront | src/ThreadPool.cpp:26-34 | the finished front is dropped, the counter decremented, and the worker is back at the top |
| Reactor.Server.WorkerTurn | src/ThreadPool.cpp:17-44 | one turn of the loop, whatever everybody else does: with a task in its queue the worker runs and drops the front, which is the next submitted to it; else it runs one that arrived, or sleeps; it never leaves |
| Reactor.Server.ChooseQueue | src/ThreadPool.hpp:43 | yields an existing queue, the counter modulo the pool's size, although the workers change the counter meanwhile |
| Reactor.Server.PushTask | src/ThreadPool.hpp:44-51 | appends the next event of the batch as a new task owned by the chosen queue, on either side of the unlock |
| Reactor.Server.PushUnlocked | src/ThreadPool.hpp:48-51 | the same push with the workers running between unlock and push |
| Reactor.Server.PushBack | src/ThreadPool.hpp:46 | the push alone: the new task is the last of its queue and the machine has taken its push |
| Reactor.Server.NotifyOne | src/ThreadPool.hpp:53 | the chosen worker is awake afterwards, and nothing else the reactor sees has changed |
| Reactor.Server.CountTask | src/ThreadPool.hpp:54 | the event counts as sent, and the counter is again exactly queued plus popped tasks |
| Reactor.Server.EmplaceBack | src/ThreadPool.hpp:43-54 | one event becomes one task of one existing queue and the counter is exact again, whatever the workers do between any two accesses |
| Reactor.Server.SubmitBatch | src/Reactor.cpp:79-84 | the tasks grow by exactly the batch, in order |
| Reactor.Server.WaitForFuture | src/Reactor.cpp:86 | returns once the future is ready, or hangs; never hangs with locked pushes, nor while no round has more than one event |
| Reactor.Server.AwaitBatch | src/Reactor.cpp:85-87 | all futures of the batch in turn, or a hang |
| Reactor.Server.FlushRound | src/Reactor.cpp:88-89 | appends one chunk with exactly the round's messages and empties the queue |
| Reactor.Server.HandleRound | src/Reactor.cpp:74-90 | one turn of the loop: the batch became tasks, all ran, their messages are in the file; or the state is a hang |
| Reactor.HandleEvents | src/Reactor.cpp:70-91 | any number of rounds from the start: all events become tasks in order and the file is one correct chunk a round, or the run hangs, which locked pushes exclude, and so do rounds of at most one event |
| Chars.UsualIsTheTable | src/http/utils.hpp:18-34 | the program's bit test on its table is the predicate the parsers here use, on every byte |
| Chars.LowcaseIsTheTable | src/http/utils.hpp:35-43 | the table's entry is non-zero iff the byte is a letter, a digit or the hyphen |
| Fields.AssignIsMapUpdate | src/http/fields.hpp:16-18 | assigning keeps the names sorted, sets one name and leaves every other lookup alone |
| Fields.LessExactly | src/http/fields.hpp:12 | the order of the names is the lexicographic one of character codes |
| Fields.TwoFieldsPrinted | src/http/fields.hpp:37-44 | two fields are printed in ascending order of their names, whichever was assigned first |
| Fields.LookupDetermines | src/http/fields.hpp:12 | two field maps that agree on every name are equal, so the printed order is a function of the map |
| Fields.FieldMap.LowerBound | src/http/fields.hpp:16-18 | finds the place of a name in the order |
| Fields.FieldMap.Set | src/http/fields.hpp:16-18 | inserting or replacing there gives that name the value and leaves the value of every other name alone, in order |
| Fields.FieldMap.Has | src/http/fields.hpp:19-21 | looking at that one place decides whether the name occurs anywhere |
| Fields.FieldMap.Write | src/http/fields.hpp:37-44 | appends the printed fields in map order; the count is two a field short |
| HeadSoundness.AcceptedIsLegal | src/http/read.hpp:254-347 | whatever bytes are accepted, the message built is legal: one of five verbs, a legal target, version at most 11, sorted legal fields |
| HeadSoundness.LineFraming | src/http/read.hpp:45-228 | a request line that ended, with its line feed or an error, reads no further: bytes that follow stay unread |
| HeadSoundness.HeaderFraming | src/http/read.hpp:254-349 | the same for the field section |
| HeadSoundness.Framing | src/http/read.hpp:233-350 | once the head is finished or refused on x, on x + y the result is the same and y is appended to what is left |
| HeadSoundness.UnreadIsTheRest | src/http/read.hpp:338-347 | what is left is a suffix of the input, and after success it starts right behind a line feed |
| LineExactly.LeadingLineBreaks | src/http/read.hpp:47-49 | line breaks before the request line are skipped |
| LineExactly.BadStart | src/http/read.hpp:50-52 | anything else before an upper-case letter is refused |
| LineExactly.BadToken | src/http/read.hpp:97-99 | anything but an upper-case letter or a space in the method is refused |
| LineExactly.SpacesBeforeTarget | src/http/read.hpp:108-109 | any number of spaces before the target is skipped |
| LineExactly.BadTargetStart | src/http/read.hpp:103-112 | a target starts with a slash or is refused |
| LineExactly.TargetExactly | src/http/read.hpp:113-143 | a target without eight characters is stored whole up to 1023 characters, ended by a space or question mark; one with another of the eight is refused; a longer one overruns the buffer |
| LineExactly.QueryExactly | src/http/read.hpp:144-159 | of a query its visible characters and its space are stored, up to 1022; NUL is refused |
| LineExactly.ProtocolExactly | src/http/read.hpp:160-178 | what precedes the slash, ten characters left out, begins with HTTP or is shorter than that, or is refused |
| LineExactly.VersionExactly | src/http/read.hpp:179-213 | the version is the number that the digits around the dot make, refused above 1 before the dot and above 11 in all |
| LineExactly.BadMajor | src/http/read.hpp:188-197 | eight characters are refused before the dot |
| LineExactly.WholeLine | src/http/read.hpp:22-229 | every request line made of such segments, without a query, gives its method, target and version |
| HeaderExactly.JunkSkipped | src/http/read.hpp:256-272 | at the start of a line everything is skipped but line breaks and what can start a name |
| HeaderExactly.NameExactly | src/http/read.hpp:273-283 | a name of up to 63 letters, digits and hyphens is taken iff a colon follows; anything else, and a longer one, is refused |
| HeaderExactly.SpacesBeforeValue | src/http/read.hpp:286 | any number of spaces before a value is skipped |
| HeaderExactly.NoValue | src/http/read.hpp:287-294 | a line break there stores one NUL |
| HeaderExactly.ValueExactly | src/http/read.hpp:302-323 | a value of up to 1023 characters, spaces included, is stored up to the line break, as what precedes a NUL in its first place; a NUL elsewhere is refused, a longer value overruns the buffer |
| HeaderExactly.RestOfLine | src/http/read.hpp:324-337 | after a carriage return everything up to the line feed is skipped |
| HeaderExactly.FieldLine | src/http/read.hpp:254-316 | a whole field line, ended by a bare line feed, is one assignment |
| HeaderExactly.HeadEndExactly | src/http/read.hpp:258-263 | the head ends with LF or CR LF at the start of a line, and CR before anything else is refused |
| HeadRoundTrip.TokenExactly | src/http/read.hpp:57-101 | an upper-case token of any length that fits is accepted iff it is one of the five verbs, which is then the method |
| HeadRoundTrip.ReadTarget | src/http/read.hpp:102-143 | a legal target in front of a space or question mark is stored and the mark decides the next state |
| HeadRoundTrip.ReadVersion | src/http/read.hpp:160-213 | a printed version 1.0 or 1.1 and CRLF finish the line with that version |
| HeadRoundTrip.ReadUnknownVersion | src/http/message.hpp:58-64 | any other version is printed as a word that is refused |
| HeadRoundTrip.ReadOneField | src/http/read.hpp:273-332 | one printed field, read with any leftovers in the buffers, is one assignment to the map |
| HeadRoundTrip.PrintThenRead | src/http/write.hpp:13-24 | a legal message printed, closed with CRLF and read in front of anything returns with its blank values exchanged and leaves exactly the tail, or is refused for its version |
| HeadRoundTrip.PrintedHeadIsUnfinished | src/http/write.hpp:41-50 | a printed head followed by anything without a line feed is never read to its end |
| HeadRoundTrip.HeadsPrinted | src/http/write.hpp:17 | a head of version 1.1 with two fields, and one of a version without a name, as they are printed |
| HeadRoundTrip.MirrorIsIdentity | src/http/read.hpp:284-302 | exchanging blank values changes nothing iff there are none, and twice is the identity |
| HeadRoundTrip.RoundTripExactly | src/http/read.hpp:233-350 | the round trip returns the message and the tail iff the version is 1.0 or 1.1 and no value is blank |
| HeadRoundTrip.NormalFormExactly | src/http/read.hpp:254-347 | for any accepted input, printing and reading again gives the same message iff the same condition holds |
| HeadRoundTrip.TwoRoundsAlwaysReturn | src/http/read.hpp:284-302 | two rounds always return the message |
| HeadRoundTrip.BlankValueIsExchanged | src/http/read.hpp:284-294 | an accepted head with one empty value: it is stored as one NUL and comes back as nothing |
| HttpRead.MatchVerb | src/http/read.hpp:64-91 | the switch with its missing breaks finds a verb iff the whole token is that verb |
| HttpRead.LineReader.OnMethod | src/http/read.hpp:57-101 | one turn in the method state, on the buffer, does what the text machine does |
| HttpRead.LineReader.OnTarget | src/http/read.hpp:113-143 | likewise in the target state, with the terminator written into the buffer |
| HttpRead.LineReader.OnParams | src/http/read.hpp:144-159 | likewise in the query state |
| HttpRead.LineReader.OnHttp | src/http/read.hpp:160-178 | likewise while reading the protocol name |
| HttpRead.LineTurn | src/http/read.hpp:45-225 | one turn of the loop, in every state, its end included, leaves the outcome of the text machine as it was |
| HttpRead.ReadHeaderLine | src/http/read.hpp:22-229 | the loop over the stream yields the code, the message and the unread rest of the text machine on the stream's text |
| HttpRead.HeaderReader.OnName | src/http/read.hpp:273-283 | one turn in the name state; names of 64 characters or more are refused |
| HttpRead.HeaderReader.OnSpaces | src/http/read.hpp:284-301 | one turn before the value; a field without a value is stored as one NUL |
| HttpRead.HeaderReader.OnValue | src/http/read.hpp:302-323 | one turn in the value |
| HttpRead.HeaderTurn | src/http/read.hpp:254-347 | likewise for one turn of the field loop, its end included |
| HttpRead.ReadFieldLines | src/http/read.hpp:250-349 | the loop over the stream yields what the text machine yields |
| HttpRead.ReadHeader | src/http/read.hpp:233-350 | read_header on any stream is the text parser on the stream's text |
| HttpWrite.Serializer.WriteHeader | src/http/write.hpp:13-24 | appends the printed head, marks it done, and returns a count two a field short |
| HttpWrite.ReadFromDescriptor | src/fdstream.hpp:113-121 | a head read from a descriptor depends only on the bytes delivered |
| HttpWrite.PrintedHeadArrives | src/fdstream.hpp:35-70 | a printed head returns over any segmentation without a segment that starts with byte 255, and the tail stays |
| HttpWrite.OutcomeIgnoresSegmentation | src/fdstream.hpp:53-69 | the same bytes cut in two such ways have the same outcome |
| FdStream.FdBuf.constructor | src/fdstream.hpp:25-27 | starts with nothing unread and an empty putback area |
| FdStream.FdBuf.Underflow | src/fdstream.hpp:35-70 | hands out unread bytes or refills; after a refill the putback area is exactly the last min(4, consumed) bytes |
| FdStream.FdBuf.SavePutback | src/fdstream.hpp:42-48 | the last min(4, consumed) bytes move in front of cell 4, also when the regions overlap |
| FdStream.FdBuf.Bump | src/fdstream.hpp:39-40 | delivers the next byte of the sequence, or end of input iff nothing more is delivered |
| FdStream.Input.Get | src/fdstream.hpp:113-121 | takes the next byte of what remains; fails iff nothing does, and then for good |
| FdStream.ReadAll | src/fdstream.hpp:35-70 | reading to the end yields every delivered byte, in order, once |
| FdStream.DeliversAllExactly | src/fdstream.hpp:53-69 | everything sent before the first failed read is delivered iff no segment starts with byte 255; otherwise a prefix is |
| FdStream.ReadsAreSent | src/fdstream.hpp:53-69 | reads of 1 to 1024 bytes are sent whole, whatever follows |
| FdStream.ReadsAreDelivered | src/fdstream.hpp:53-69 | and delivered whole if none starts with byte 255 |
| FdStream.NothingBehindAFailure | src/fdstream.hpp:53-61 | a failed or empty read ends the input |
| FdStream.Byte255EndsTheInput | src/fdstream.hpp:66-69 | a single byte 255 is sent and nothing is delivered |
| FdStream.SegmentationIrrelevant | src/fdstream.hpp:53-69 | for bytes below 255 the segmentation makes no difference |
| Form.FormRoundTrip | src/http/vector_body.cpp:112-119 | a printed list in front of a space and anything is read back unchanged, whatever the buffers held, up to and including the space |
| Form.LastPairNeedsTerminator | src/http/vector_body.cpp:75-82 | without a terminator exactly the last pair is lost |
| Form.FormIsSound | src/http/vector_body.cpp:34-82 | from any input, line breaks included, only legal keys and values are stored |
| Form.FormNormalForm | src/http/vector_body.cpp:20-119 | any list that was read, items without '=' and line breaks included, survives printing and reading |
| Form.ReadLines | src/http/vector_body.cpp:37-107 | items with and without an equals sign, separated by ampersands, LF, or CR and anything up to LF, in any mix: the keys stored are the new ones written into what is left of the old, or the name buffer is overrun |
| Form.LinesExactly | src/http/vector_body.cpp:83-98 | such items are read as they are iff every line break between them is harmless |
| Form.SecondLineIsGlued | src/http/vector_body.cpp:91-98 | two lines `a=1` and `b=2` give the keys `a` and `ab`, whatever the buffers held |
| FormExactly.LengthLimits | src/http/vector_body.cpp:38-64 | a legal key has at most 63 characters, none of fourteen; a legal value at most 1023, visible and no ampersand |
| FormExactly.KeyRefused | src/http/vector_body.cpp:42-58 | a key that meets one of the others than ampersand and equals sign is refused with -1 |
| FormExactly.ValueRefused | src/http/vector_body.cpp:61-99 | a value that meets a character that is neither printable nor a line break is refused with -1 |
| FormExactly.ValueTooLong | src/http/vector_body.cpp:61-99 | a value of 1024 characters overruns its buffer |
| FormExactly.CountExactly | src/http/vector_body.cpp:34-35 | a count returned is the number of bytes read, at most 4096, and reading stops only there, at the end of the input or behind a space |
| FormExactly.BareKeyIsKept | src/http/vector_body.cpp:48-55 | a key without an equals sign is stored with an empty value |
| FormExactly.TwoPairsPrinted | src/http/vector_body.cpp:112-119 | two pairs as they are printed |
| HttpForm.FormReader.OnName | src/http/vector_body.cpp:37-59 | one turn in the name state, on the buffers, does what the text machine does |
| HttpForm.FormReader.OnValue | src/http/vector_body.cpp:60-100 | likewise in the value state, with the pair pushed |
| HttpForm.FormReader.Step | src/http/vector_body.cpp:36-107 | likewise in every state |
| HttpForm.FormRead | src/http/vector_body.cpp:20-110 | the loop returns the count, the list and the unread rest of the text machine, within 4096 bytes |
| HttpForm.FormWrite | src/http/vector_body.cpp:112-119 | appends the printed list |
| HttpForm.ReadBody | src/http/read.hpp:352-363 | reads the stored query and leaves the stream alone if there is one, else reads the stream |
| QueryRoundTrip.ReadQueryLine | src/http/read.hpp:118-159 | a request line with a query is read with the query and its trailing space kept |
| QueryRoundTrip.QueryReturns | src/http/read.hpp:144-159 | a list printed into a request line is the list the form parser reads from the stored query, and the head returns with it |
| FileBody.Write | src/http/file_body.cpp:5-37 | the loop over the socket sends what the specification says and returns the file's size in any case |
| FileBody.SentIsContiguous | src/http/file_body.cpp:14-31 | at every point the bytes sent are the mapping from its start to the running total, and the loop is done iff the total reaches the size |
| FileBody.SendsTheFileExactly | src/http/file_body.cpp:11-35 | every finished send is the file, over all behaviours of the socket, iff the file is empty, nothing is readable behind it, or its truncated size is not positive |
| FileBody.ChunkAsWritten | src/http/file_body.cpp:21-30 | the chunk follows the answers, failures included, until it outgrows an int; from then on it is negative, and it never becomes zero |
| FileBody.StuckForEver | src/http/file_body.cpp:14-31 | with a chunk that is not positive nothing more is sent, and the loop ends iff a write reports EFAULT |
| FileBody.WayToFinish | src/http/file_body.cpp:14-31 | from a positive chunk some answers finish the send, with the last byte of the file or with one more if one is readable |
| FileBody.Int32Exactly | src/http/file_body.cpp:11 | the stored size is a 32-bit number congruent to the size |
| FileBody.FailuresHalve | src/http/file_body.cpp:21-22 | failures halve the chunk while it is above 4096, and not any more |
| FileBody.BreaksExactly | src/http/file_body.cpp:17-20 | an EFAULT before the file is out ends the send with what was sent until then |
| FileBody.WithoutFaultNoBreak | src/http/file_body.cpp:15-26 | no other failure does |
| FileBody.StuckExactly | src/http/file_body.cpp:27-31 | a send under way can no longer finish iff the truncated size was not positive or the chunk has outgrown an int on the way |
| FileBody.OutgrowsByDoubling | src/http/file_body.cpp:29 | without failures that is iff the size doubled once a write exceeds INT_MAX |
| FileBody.ShortWritesFinishExactly | src/http/file_body.cpp:14-31 | every sequence of productive writes as long as the file finishes it iff the file has at most 27 bytes |
| FileBody.TwentyEightBytesStall | src/http/file_body.cpp:14-31 | 28 bytes sent one by one end with a negative chunk before the last |
| FileBody.ClampedKeepsFit | src/http/file_body.cpp:14-30 | with the clamp, halving and doubling keep the chunk positive and within what remains, whatever the socket answers |
| FileBody.ClampedSendsExactlyTheFile | src/http/file_body.cpp:11-35 | with the clamp, for files of any size, as many productive writes as the file has bytes send exactly the file, whatever fails between |
| LruSpec.RecencyIsByLastUse | src/filecaches.hpp:26 | move-to-front keeps the distinct paths ordered by last use |
| LruSpec.PlaceIsDistance | src/filecaches.hpp:26-32 | a path's place is the number of distinct paths used since |
| LruSpec.CacheIsRecency | src/Gateway.cpp:149-161 | after any history the cache is the recency order cut at the capacity |
| LruSpec.HitExactly | src/Gateway.cpp:150 | a request hits iff its path was used before and fewer distinct paths than the capacity since |
| LruSpec.SmallerIsPrefix | src/filecaches.hpp:32-35 | a smaller cache holds a prefix of a larger one's paths |
| LruSpec.CachedFileIsLoaded | src/Gateway.cpp:154-160 | the content of a cached path is what the last request that missed it loaded |
| LruSpec.ServedExactly | src/Gateway.cpp:149-161 | every request of a history is served what the last request that missed its path loaded |
| LruSpec.SecondIsCached | src/Gateway.cpp:150-154 | a path asked for twice is served the cached file, whatever the file has become |
| LruSpec.GetKeepsFiles | src/filecaches.hpp:22-29 | a look-up changes no cached file |
| LruSpec.SetExactly | src/filecaches.hpp:30-43 | set gives its path the new file; every other path keeps its own, but the last of a full list if the path is new |
| LruSpec.GetTwice | src/Gateway.cpp:150-154 | the second look-up of a hit finds the same entry in front and changes nothing |
| CacheAsWritten.AsWrittenExactly | src/filecaches.hpp:13-36 | with the name forgotten, the cache is right as long as no evicted path is asked for, and the next such request fails |
| CacheAsWritten.EvictionErasesTheEmptyKey | src/filecaches.hpp:32-36 | an eviction erases the empty key and no other |
| CacheAsWritten.MapMatchesListExactly | src/filecaches.hpp:30-43 | map and list agree iff nothing was ever evicted |
| CacheAsWritten.ThreeRequestsFail | src/filecaches.hpp:13-34 | three requests and room for one file are enough to fail |
| FileCache.FileCaches.constructor | src/filecaches.hpp:21 | an empty cache |
| FileCache.FileCaches.Splice | src/filecaches.hpp:26 | relinking moves one node to the front and keeps every other in order |
| FileCache.FileCaches.Unlink | src/filecaches.hpp:26-34 | takes one node out of the list and leaves the others linked in order |
| FileCache.FileCaches.LinkFront | src/filecaches.hpp:26-36 | puts a node before all others |
| FileCache.FileCaches.MoveUp | src/filecaches.hpp:26-27 | moving a cached node up leaves the map as it was, still in bijection with the list |
| FileCache.FileCaches.LoadNew | src/filecaches.hpp:31-36 | set on a path that is not cached |
| FileCache.FileCaches.Refresh | src/filecaches.hpp:37-40 | set on a cached path replaces its file and moves it up |
| FileCache.FileCaches.Get | src/filecaches.hpp:22-29 | refines the list's get, keeps map and list in bijection, and returns a node iff the path is cached |
| FileCache.FileCaches.EvictBack | src/filecaches.hpp:33-34 | the last node and its key go, and nothing else |
| FileCache.FileCaches.PushFront | src/filecaches.hpp:36-41 | a new node comes first and its path leads to it |
| FileCache.FileCaches.Reload | src/filecaches.hpp:38 | one entry's file changes |
| FileCache.FileCaches.Set | src/filecaches.hpp:30-43 | refines the list's set, evicting the last entry exactly when the list is full and the path is new |
| FileCache.FileCaches.Serve | src/Gateway.cpp:149-161 | serves the cached file on a hit and the loaded one otherwise, and refines one request on the list |
| FileCache.ServeAll | src/Gateway.cpp:149-161 | a whole history from an empty cache leaves the list the recency theorems speak of, and serves every request from it |

## Left out

- Sockets, epoll, accept, signals, time, mmap, stat and open: event batches, reads, write results and file contents are parameters.
- Shutdown: the pool's destructor and cleaner; all runs are before it.
- The reactor's handler table and demultiplexer: an event is the handler it selects.
- Handlers that throw or never return; a `log` before the first round.
- Data races on a `std::list` outside its mutex: each list operation is one atomic step.
- The machine width of `taskcnt`: `CounterBounds` keeps it far from any limit for realistic pools.
- What happens after a write past a character buffer: the model stops there.
- `fdbuf`'s `seekoff`, `overflow` and the stream classes' remaining interface: thin wrappers.
- Responses: status lines, reason texts, content types, dates; finite tables.
- `vector_body::size`, `string_body`, `empty_body`, and `file_body::read`: nothing to prove beyond their bodies.
- Services loaded with dlopen, the MaxMind look-ups, configuration parsing.
- Concurrent use of one host's cache: it takes no lock and is modelled sequentially.
- Percent-decoding: the program does none.
- PoolProgress.LostWakeUpsExactly: tells lost wake-ups by the schedule, as a step towards PoolHang.RoundsCompleteExactly, whose condition is the size of the rounds.
- PoolProgress.WaitingIsNotStuck: assumes locked pushes or rounds of at most one event, like EveryBatchCompletes.
- PoolProgress.EveryBatchCompletes: assumes locked pushes or rounds of at most one event; PoolHang.RoundsCompleteExactly shows that nothing wider holds as written.
- FileBody.ClampedKeepsFit: speaks of the chunk clamped to what remains, which the loop as written lacks; for that one see FileBody.ChunkAsWritten.
- FileBody.ClampedSendsExactlyTheFile: the same; for the loop as written see FileBody.SendsTheFileExactly, FileBody.StuckExactly and FileBody.ShortWritesFinishExactly.
- FileCache.FileCaches.EvictBack: erases the evicted path's key, which needs nodes that store their path; as written the empty key is erased, see CacheAsWritten.AsWrittenExactly.
- FileCache.FileCaches.LoadNew: the same, on a full list.
- FileCache.FileCaches.Set: the same.
- FileCache.ServeAll: the same.
- FileCache.FileCaches.Serve: nodes store their path, unlike the constructor as written, whose effect is CacheAsWritten.AsWrittenExactly.
- QueryRoundTrip.QueryReturns: the serializer itself never prints a query; the request line is composed from its parts.
