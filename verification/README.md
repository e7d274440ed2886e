# A verified model of the AESD character device and its socket server

The repository holds a Linux character device that keeps the last ten newline-terminated
write commands in a ring and shows them as one flat file, a threaded socket server that
feeds the device and sends it back, and the BSD list macros the server uses. This project
models all three in Dafny and proves what they promise over every input, every run and
every interleaving.

How the modules build on each other:

- `Commands` is the simple meaning of the ring: a sequence of commands read as one file.
- `CircularBuffers` is the ring as an object, with its lookup loop in wrapping `size_t`
  arithmetic and the two separately written size loops, all proved against `Commands`.
- `KernelHeap` is the allocator and who owns which block; `Devices` is the driver working in
  place on ring, pending entry and heap, proved against the functions of `DeviceSpec`;
  `DeviceSessions` runs any sequence of calls on that code from load to unload;
  `DeviceTheorems` proves what holds over whole runs, and `FileTheorems` what a program sees through
  its open files, in the numbers of the kernel interface.
- `SeekCommands`, with `SeekNumbers` for the meaning of the number fields, and `Connections` are one connection of the server, as code and as a
  function; `ConnectionTheorems` says what a client gets, `ConnectionWrites` what of its bytes
  reaches the device, `ConnectionStalls` exactly when it keeps its thread waiting.
- `Servers` is the main thread and any number of connection threads as a transition system
  with arbitrary interleaving and arbitrary arrivals from the network, where the main thread's
  closing of a descriptor at shutdown makes later calls on it fail; `ServerLocking`,
  `ServerLifetime`, `ServerTheorems`, `ServerLoop`, `ServerConservation` and `ServerShutdown` prove
  serialisability, memory safety, reaping, the turns of the main loop, conservation of the written
  bytes across all connections, and exactly when the server is stuck and when a shutdown ends.
- `SLists` and `TailQueues` are the linked structures of `server/queue.h`, as heap structures.

What a call meets from outside is a parameter: whether the mutex wait is interrupted, whether
`kmalloc` fails, how many bytes a user copy leaves uncopied, what `recv` delivers and when it
blocks, whether `send` works, fails or blocks, when the server is told to quit. The contracts of
the code, the run theorems of the device and the theorems about the server are for all of these.
`MessageServed`, `WholeBuffersGetNoReply`, `SeekRequestServed`, `PlainLineIsLost`,
`DeviceGetsPayloads`, `EveryClientGetsTheRing`, `ReplyIsRest`, the exact lemmas of `ConnectionStalls`
with `ShutdownStopsForClients`, and the two SEEK_END lemmas say what happens when no call to the
device fails; `BodyReply`, `RepliesAreBeginnings`, `ReceivingWrites` and `ServerConservation` say what
is left when they do.

Where the code and the expectation differ, the code is followed and the exact condition is proved:

- Writing in pieces equals writing at once exactly when no proper piece ends a line
  (`DeviceTheorems.SplittingIsInvisible`).
- The return code of a write says that the bytes were stored exactly when the copy from the caller
  did not fault as a whole (`DeviceTheorems.CodeTellsStored`).
- A text is taken for a seek exactly when it has a `:`, a later `,` and a newline after that, with no
  NUL before, whatever stands in between (`SeekCommands.SeekExactlyWhenShaped`); such a line is never
  written (`ConnectionTheorems.SeekShapeIsNotWritten`, with `a:b,c` as an example in `PlainLineIsLost`).
- Of a chunk only the bytes up to its first newline are written; all bytes are exactly when no chunk
  has a newline before its last byte (`ConnectionTheorems.AllBytesWritten`).
- Of several lines in one chunk only the first is stored (`ConnectionTheorems.FirstLineServed`).
- A message is committed and answered exactly when there is memory for it and it arrives in full
  buffers followed by a short one (`ConnectionTheorems.MessageServed`).
- A thread whose device did not open never sets its flag and stays in the list until shutdown
  (`ServerTheorems.FlagDecidesReaping`, with the run of `ServerShutdown.UnopenedIsNotReaped`).
- A shutdown ends exactly when no connection that took the mutex waits forever for its client
  (`ServerShutdown.ShutdownStopsExactly`): `recv` and `send` block with the mutex held, so a client that
  stays silent while its thread is inside `recv` hangs it (`SilentClientBlocksShutdown`). The main thread
  closes the client's descriptor first, which helps exactly the threads that are not inside such a call
  yet: they fail and go (`ClosedNeverWaits`), and the same client with the other order of events does not
  hang the shutdown (`QuitFirstStops`). The loop before shutdown never hangs that way.

Modelling conditions:

- A write of nothing with nothing pending is not defined by the driver (it would index byte -1);
  `Devices.Device.Write` excludes it and nothing else.
- `kmalloc` refuses more than `KMALLOC_MAX` bytes (4 MiB; any limit below 2^59 would do), so sums
  of sizes never reach the limit of `loff_t`; sums of positions wrap as signed 64-bit numbers.
- Number fields of a seek request have at most nine characters, since the code copies them to
  ten-byte buffers (`SeekCommands.FieldsFit`); string searches stop at the bytes received.
- `recv` blocks when nothing has arrived and the client has not closed; `send` transmits all it is
  given, fails, or blocks for good; the server's own stack buffers do not fault in user copies.
- A `recv` or `send` called on a descriptor that the main thread has closed fails at once; one that is
  under way when it is closed goes on. What a thread meets that way is part of its recorded input, so
  the serial run meets it too.
- Freed addresses are never handed out again, in the driver's heap and in the server's.

## Model

| member | source | states |
|---|---|---|
| Commands.LocateCorrect | aesd-char-driver/aesd-circular-buffer.c:21-30 | flat lookup succeeds exactly below the total size, and the sizes before the command plus the offset are the position |
| Commands.ReadIsSlice | aesd-char-driver/main.c:62-82 | one read is a slice of the flat file at the position, empty only at the end or for no room |
| Commands.SeekThenLocate | aesd-char-driver/main.c:226-264 | every accepted pair (command, offset) is found again by lookup, and the flat byte there is the byte it names |
| Commands.LocateThenSeek | aesd-char-driver/main.c:226-264 | every position below the total size arises from exactly one accepted pair |
| Commands.DrainDeliversRest | server/connection_thread.c:131-149 | reading on until nothing is left delivers exactly the file from the position on |
| Commands.DrainRespectsCommands | aesd-char-driver/main.c:66-81 | no read is empty, too long or crosses a command boundary |
| Commands.DrainReadCount | server/connection_thread.c:131-149 | the exact number of non-empty reads: the rest of the first command and each later command, divided by the buffer size and rounded up |
| Commands.ReadsForIsCeiling | aesd-char-driver/main.c:66-71 | the count used there is the quotient rounded up |
| CircularBuffers.CircularBuffer.constructor | aesd-char-driver/aesd-circular-buffer.c:89-92 | a zeroed ring is well-formed and empty |
| CircularBuffers.CircularBuffer.AddEntry | aesd-char-driver/aesd-circular-buffer.c:71-84 | the entry becomes the newest; of ten the oldest goes; full, in and out offsets stay consistent |
| CircularBuffers.CircularBuffer.Find | aesd-char-driver/aesd-circular-buffer.c:31-62 | with wrapping arithmetic the loop stays in slots 0..9, ends within ten turns, finds an entry exactly below the total size, and it is the slot and byte of flat lookup |
| CircularBuffers.CursorNames | aesd-char-driver/aesd-circular-buffer.c:39-46 | before and after the wrap, start plus cursor in `size_t` is slot (out + k) mod 10 |
| CircularBuffers.CursorAdvances | aesd-char-driver/aesd-circular-buffer.c:45-53 | one turn moves the cursor one slot on, and it is zero again exactly after the tenth |
| CircularBuffers.CircularBuffer.TotalSize | aesd-char-driver/main.c:159-183 | the SEEK_END loop computes the total size of the entries |
| CircularBuffers.CircularBuffer.CommandPosition | aesd-char-driver/main.c:226-263 | the ioctl loop accepts exactly the pairs that name a byte and computes its flat position |
| CircularBuffers.SeekThenFind | aesd-char-driver/main.c:246-264 | for a ring whose total size fits `size_t`, the position of the ioctl followed by lookup ends in slot (out + command) mod 10 at the same offset |
| KernelHeap.Heap.Kmalloc | aesd-char-driver/main.c:104-109 | a new block at an address not live, or NULL and nothing changed |
| KernelHeap.Heap.Kfree | aesd-char-driver/main.c:114 | frees NULL or a live block, and only that block |
| KernelHeap.MoveCurrent | aesd-char-driver/main.c:111-116 | moving the pending text to a fresh block and freeing the old one keeps ownership and every text |
| KernelHeap.CommitBlock | aesd-char-driver/main.c:126-131 | freeing the evicted block and handing over the pending one keeps: live blocks are exactly the distinct pointers held |
| Devices.Device.constructor | aesd-char-driver/main.c:314-317 | a loaded device is empty and owns no block |
| Devices.Device.Read | aesd-char-driver/main.c:49-86 | returned bytes, code and new position are those of the flat file; a failed copy or interrupt moves nothing |
| Devices.Device.Enlarge | aesd-char-driver/main.c:104-116 | the pending entry gets a larger block with the same text, the old block is freed, or nothing changes |
| Devices.Device.CopyIn | aesd-char-driver/main.c:117-123 | a complete copy from the caller extends the pending text by exactly the data; a copy with a residue leaves every text as it was |
| Devices.Device.Commit | aesd-char-driver/main.c:126-131 | the pending text becomes the newest command, at most the oldest is evicted and its block freed |
| Devices.Device.Write | aesd-char-driver/main.c:88-137 | the new abstract state and the return code for success, interrupt, no memory and failed copy; ownership is kept on every path |
| Devices.Device.Llseek | aesd-char-driver/main.c:139-203 | the new position for each whence; bad whence, negative or wrapped positions are -EINVAL and move nothing |
| Devices.Device.Ioctl | aesd-char-driver/main.c:205-275 | accepted pairs set the position of the byte they name; everything else is -EINVAL and moves nothing |
| Devices.Device.Cleanup | aesd-char-driver/main.c:334-343 | every block is freed once and none is left |
| DeviceSessions.Session.Perform | aesd-char-driver/main.c:277-285 | one call on any open file is one step of the abstract system, response included |
| DeviceSessions.LoadRunUnload | aesd-char-driver/main.c:303-347 | over every run the code's responses and state are those of the abstract run, and after unload no block is live |
| DeviceTheorems.AssembleConserves | aesd-char-driver/main.c:123-132 | assembling commands from accepted writes neither loses nor reorders bytes and cuts exactly after newlines |
| DeviceTheorems.RingIsNewestHistory | aesd-char-driver/aesd-circular-buffer.c:71-84 | over every run the ring is the newest ten of all commands ever committed |
| DeviceTheorems.StreamConservation | aesd-char-driver/main.c:104-133 | over every run accepted bytes are evicted, then ring, then pending; the ring is the last min(n, 10) commands, each ends in a newline, pending does not |
| DeviceTheorems.SplittingIsInvisible | aesd-char-driver/main.c:104-132 | writing in non-empty pieces equals one write exactly when no proper piece ends a line |
| DeviceTheorems.FailedWritesLeaveNoTrace | aesd-char-driver/main.c:104-122 | leaving out the failed writes of any run changes neither the state nor any other response |
| DeviceTheorems.CodeTellsStored | aesd-char-driver/main.c:104-136 | the code equals the count exactly for a stored write and for a copy that faults as a whole, which stores nothing; it is negative exactly for an interrupt and for want of memory |
| DeviceTheorems.EvictionShifts | aesd-char-driver/main.c:124-131 | after a commit into a full ring (k, o) names the byte (k + 1, o) named, lower by exactly the evicted size |
| DeviceTheorems.SeekEndIsFirstMiss | aesd-char-driver/main.c:158-185 | SEEK_END + 0 is the least position at which lookup finds nothing |
| DeviceTheorems.SeekEndThenDrain | aesd-char-driver/main.c:158-185 | SEEK_END - n followed by reading to the end delivers exactly the last n bytes |
| FileTheorems.ReadResponds | aesd-char-driver/main.c:49-86 | a read delivers the slice of the flat file at the position, at most as long as asked for and empty only at the end or for count 0, returns its length, moves by it and changes nothing else |
| FileTheorems.ReadStopsAtCommand | aesd-char-driver/main.c:62-81 | from byte o of command k it delivers the rest of that command or as much as asked for |
| FileTheorems.FailedReadResponds | aesd-char-driver/main.c:56-79 | an interrupted read is -4, a faulting one returns the residue; log and position stay |
| FileTheorems.ReadingOnDelivers | aesd-char-driver/main.c:49-86 | over every run of enough reads with any positive counts, the data is exactly the file from the position on |
| FileTheorems.LlseekResponds | aesd-char-driver/main.c:139-203 | whence 0, 1, 2 count from 0, the position and the total size; refused with -22, and nothing moved, exactly for another whence, a target outside 0..2^63-1 and an interrupt |
| FileTheorems.SetThenReadOn | aesd-char-driver/main.c:152-154 | moving to p with whence 0 and reading on delivers the file from p on, wherever the file was |
| FileTheorems.CurReports | aesd-char-driver/main.c:155-157 | whence 1 with offset 0 reports the position and moves nothing |
| FileTheorems.CurComposes | aesd-char-driver/main.c:155-157 | two relative moves are one by their sum |
| FileTheorems.SetThenCur | aesd-char-driver/main.c:152-157 | moving to p and then by d is moving to p + d |
| FileTheorems.IoctlResponds | aesd-char-driver/main.c:205-275 | the one request number with a pair that names a byte moves to it; every other request, pair, interrupt or fault is -22 and moves nothing |
| FileTheorems.IoctlThenReadOn | aesd-char-driver/main.c:246-264 | seeking to a byte and reading on delivers the rest of its command and the commands after it |
| FileTheorems.WriteResponds | aesd-char-driver/main.c:88-137 | -4, -12, the residue or the length, and the device changed only in the last case: a text ending in byte 10 becomes the newest of at most ten commands, any other is pending |
| FileTheorems.RunTouches | aesd-char-driver/main.c:277-285 | over every run calls on other descriptors do not move a file, and without writes the device stays as it is |
| SeekCommands.FirstIndex | server/connection_thread.c:99-109 | strchr: the first such byte, with neither it nor NUL before it; none exactly when a NUL comes before every such byte |
| SeekCommands.SeekExactlyWhenShaped | server/connection_thread.c:99-113 | a text is taken for a seek exactly when it has ':', a later ',' and a later newline with no NUL before it |
| SeekCommands.Strchr | server/connection_thread.c:99-109 | the search loop computes it |
| SeekCommands.CopyField | server/connection_thread.c:114-117 | memset and strncpy leave exactly the field, NUL-terminated |
| SeekCommands.AtoiOf | server/connection_thread.c:118-124 | atoi on the buffer is the number the field denotes |
| SeekCommands.CheckForIoctlCommand | server/connection_thread.c:97-127 | the request found is the one the three marks delimit, or none |
| SeekCommands.DecimalRoundTrip | server/connection_thread.c:118 | reading the decimal notation of a number gives the number |
| SeekCommands.SeekRoundTrip | server/connection_thread.c:97-127 | for all numbers below 10^9 and any prefix without ':' and NUL, parsing the request text returns both numbers |
| SeekCommands.AtoiFitsInt | server/connection_thread.c:115-124 | a field that fits its buffer cannot overflow an int |
| SeekNumbers.AtoiReads | server/connection_thread.c:118-124 | a text of blanks, a sign, digits and a rest denotes the sum of the digits' values times powers of ten, negative after '-' |
| SeekNumbers.TextParts | server/connection_thread.c:118-124 | every text is of that form |
| SeekNumbers.DecimalIsNotation | server/connection_thread.c:118 | decimal notation has characters 48..57, that value, and no leading zero |
| SeekNumbers.FieldsAreParsed | server/connection_thread.c:97-127 | the numbers between the first ':', the ',' after it and the newline after that are the request, modulo 2^32, whatever comes before and after |
| SeekNumbers.KnownRequest | server/connection_thread.c:97-127 | the characters of AESDCHAR_IOCSEEKTO:2,3, with or without a carriage return, ask for (2, 3) |
| SeekNumbers.MinusWraps | server/connection_thread.c:118 | a negative number wraps in uint32_t |
| Connections.LastIndex | server/connection_thread.c:60-69 | the index of the first newline, or of the last byte when there is none; what is written of a chunk ends there |
| Connections.TakeChunk | server/connection_thread.c:60-90 | one chunk is a seek if it reads as one, else a write; failures of the device call are reported |
| Connections.RecvMessages | server/connection_thread.c:36-95 | the receive loop leaves device and position as the function of the received chunks says, and returns 0, returns -1 or waits in recv as it says |
| Connections.SendMessages | server/connection_thread.c:129-152 | the nested loops send what the function says and return 0, return -1 or wait in send as it says; when nothing fails they make the reads of a drain and one more |
| Connections.ServeConnection | server/connection_thread.c:164-192 | the locked part of a thread on a device has the outcome of the function `Body` |
| ConnectionTheorems.ReplyIsRest | server/connection_thread.c:129-152 | when nothing fails the reply is the whole file from the position on |
| ConnectionTheorems.SendExactly | server/connection_thread.c:129-152 | the first k reads are sent if k turns work; then a failing turn is -1, a stalling one waits, and with nothing more to send it is 0 |
| ConnectionTheorems.ReplyIsPrefix | server/connection_thread.c:129-152 | whatever fails or stalls, what is sent is the beginning of it |
| ConnectionTheorems.BodyReply | server/connection_thread.c:164-192 | for every input the reply begins the file from the position receiving leaves, and is all of it on success |
| ConnectionTheorems.MessageServed | server/connection_thread.c:41-92 | a message, joined to any text left pending, is committed as one newest command and answered with the whole ring, which ends in it, exactly when there is memory for it and it arrives as full buffers and a short one |
| ConnectionTheorems.WholeBuffersGetNoReply | server/connection_thread.c:92 | a message of whole buffers is committed, and the thread waits for more with the mutex held and no reply |
| ConnectionTheorems.PayloadIsFirstLine | server/connection_thread.c:60-69 | of a chunk with a newline exactly the bytes up to the first one are written |
| ConnectionTheorems.FirstLineServed | server/connection_thread.c:60-84 | of several lines in a short chunk exactly the first is committed, behind what was pending, and answered with that ring |
| ConnectionTheorems.UnfinishedLinePends | server/connection_thread.c:64-84 | a short chunk without newline stays pending and is answered with the old ring |
| ConnectionTheorems.RecvConcat | server/connection_thread.c:41-92 | receiving in two goes is receiving in one when the first ran out of input |
| ConnectionTheorems.NextEvent | server/connection_thread.c:45-92 | wherever the loop is, an error, a close and a failing device call end it with -1 and change nothing, a short chunk ends it with 0, a full one makes it go on |
| ConnectionTheorems.FailureGetsNoReply | server/connection_thread.c:172-180 | such an end gives the client nothing and leaves the device as it was before that event |
| ConnectionTheorems.RecvIgnoresLater | server/connection_thread.c:92 | what arrives after the receive loop has ended makes no difference |
| ConnectionTheorems.SeekShapeIsNotWritten | server/connection_thread.c:74-90 | a chunk of the shape of a seek leaves the device as it is |
| ConnectionTheorems.PlainLineIsLost | server/connection_thread.c:74-90 | the line `a:b,c` is not stored and its sender gets the old ring |
| ConnectionTheorems.SeekRequestServed | server/connection_thread.c:74-81 | a seek request leaves the device alone and is answered with the ring from that byte on, or rejected without reply |
| ConnectionWrites.ReceivingWrites | server/connection_thread.c:41-92 | for all events, errors and failing calls included, receiving leaves the device that the payloads it accepted make |
| ConnectionWrites.DeviceGetsPayloads | server/connection_thread.c:41-92 | of any chunks the device takes exactly the payloads of the non-seeks among the first k heard, where the k-th is the first close or seek to no byte of the ring of that moment; k and the last chunk decide the return value |
| ConnectionWrites.AllBytesWritten | server/connection_thread.c:60-84 | all bytes of the non-seek chunks are written exactly when none has a newline before its last byte |
| ConnectionStalls.TalkativeNeverStalls | server/connection_thread.c:41-149 | a client that sends an error, a close or a short chunk and whose sends do not block never stalls its thread |
| ConnectionStalls.SendWaitsExactly | server/connection_thread.c:129-152 | the send loop waits exactly when a send that blocks comes before the reply is out and before another failure |
| ConnectionStalls.ReceiveWaitsExactly | server/connection_thread.c:41-92 | of text that is no seek, with memory for it, the receive loop waits exactly when everything that came filled the buffer |
| ConnectionStalls.StallsExactly | server/connection_thread.c:164-192 | the locked part waits for its client exactly in one of these two ways |
| Servers.MainMoves | server/aesdsocket.c:94-171 | no step of the main thread changes the device, who holds or held the mutex, or a thread; only accepting adds one; only the test of the quit flag begins the shutdown and nothing ends it |
| ServerLocking.LockKept | server/connection_thread.c:163-192 | every step keeps: the owner is the one thread inside, locks are given back in order, nobody locks twice |
| ServerLocking.CourseKept | server/connection_thread.c:164-192 | a step inside the locked region keeps the thread where serving its input alone would have it |
| ServerLocking.ArrivalKept | server/connection_thread.c:45 | so does whatever arrives for it meanwhile |
| ServerLocking.SerialKept | server/connection_thread.c:163-192 | every step of every thread and every arrival keeps the simulation by the serial run in lock order |
| ServerLifetime.LifeKept | server/aesdsocket.c:94-171 | every step keeps: list, joined threads, live blocks and frees agree |
| ServerLifetime.RemoveAtCursor | server/aesdsocket.c:97-105 | removing under the cursor keeps the rest of the pass as the end of the list |
| ServerTheorems.MutualExclusion | server/connection_thread.c:163-192 | in every state of every run at most one thread is inside the locked region |
| ServerTheorems.UnlocksExactlyOnce | server/connection_thread.c:163-203 | on every exit path a thread has locked once and unlocked once |
| ServerTheorems.Serialisable | server/connection_thread.c:163-192 | in every state the replies of all threads that gave the mutex back are those of serving the connections serially in lock order, and so is the device whenever the mutex is free |
| ServerTheorems.EveryClientGetsTheRing | server/connection_thread.c:172-192 | in every interleaving, a message in full buffers and a short one is committed behind whatever text was pending and is answered with the whole ring of that moment |
| ServerTheorems.RepliesAreBeginnings | server/connection_thread.c:129-192 | in every state what a thread has sent begins the file of its turn in the serial run, whatever failed or stalled |
| ServerTheorems.ListIsUnjoined | server/aesdsocket.c:94-105 | at the loop head the list is exactly the threads created and not joined |
| ServerTheorems.FlagDecidesReaping | server/connection_thread.c:165-203 | the flag of an exited thread is set exactly when its device opened; the others are not joined and stay listed until shutdown |
| ServerTheorems.PassReapsFlagged | server/aesdsocket.c:97-105 | after one pass every thread listed with its flag set at the loop head has been joined and freed, whatever happened meanwhile |
| ServerTheorems.TouchesOnlyLive | server/aesdsocket.c:97-171 | no step of any thread reads, writes or frees a block that is not live |
| ServerTheorems.MutexOutlivesThreads | server/aesdsocket.c:160-171 | the mutex is destroyed only when it is free and every thread has been joined |
| ServerTheorems.StoppedIsClean | server/aesdsocket.c:160-171 | once stopped nothing is live and every record was freed exactly once |
| ServerTheorems.StoppedServedAll | server/aesdsocket.c:160-171 | once stopped every thread was served and the device is that of the serial run |
| ServerLoop.ShutdownExactlyWhenTold | server/aesdsocket.c:94 | in every state the server is shutting down exactly when the loop condition was tested with the quit flag set |
| ServerLoop.ReturnsToLoopHead | server/aesdsocket.c:94-158 | whatever accept returns and the others do, the main thread is at the loop head again after a number of its own steps bounded by its place and the list |
| ServerLoop.ReachesAccept | server/aesdsocket.c:94-109 | from the loop head without a quit it is at accept within three steps a record and one more |
| ServerLoop.LoopGoesOn | server/aesdsocket.c:94-158 | before shutdown the main thread can always step, or joins a flagged thread that has only its unlock left; accept may return either way |
| ServerLoop.NewestFirst | server/aesdsocket.c:100-103 | in every state the list is newest first, and records are freed as handle, connection, node |
| ServerLoop.ClosesWhatItJoins | server/aesdsocket.c:160-163 | no descriptor is closed before shutdown; then exactly that of the thread joined next, the other closed ones being of joined threads |
| ServerLoop.FlagTiming | server/connection_thread.c:172-203 | a flagged thread has exited or has failed and still holds the mutex; who failed is flagged when it unlocks, who served only afterwards |
| ServerConservation.SerialWrites | server/connection_thread.c:163-192 | serving connections one after another leaves the device that the concatenation of what each wrote makes |
| ServerConservation.DeviceIsSerial | server/connection_thread.c:163-192 | also while the mutex is held, the device is that of the serial run over what the threads have met so far |
| ServerConservation.ServerConservation | server/connection_thread.c:41-192 | in every state of every interleaving, all bytes written, connection by connection in lock order, are the evicted commands, the ring and the pending text; the ring is the newest ten commands assembled from them |
| ServerShutdown.StuckExactly | server/aesdsocket.c:94-171 | before it has stopped the server can do nothing by itself exactly when it drains and joins an unexited thread, the owner is inside a recv with nothing to receive or a send that blocks, and every other unexited thread waits for the mutex |
| ServerShutdown.SilentClientBlocksShutdown | server/connection_thread.c:45 | a client that connects and stays silent while its thread is inside recv leads, on any device, to a stuck server that has not stopped |
| ServerShutdown.QuitFirstStops | server/aesdsocket.c:160-171 | the same client, with the descriptor closed before its thread reaches recv: the thread fails and the server stops |
| ServerShutdown.ClosedNeverWaits | server/aesdsocket.c:162 | a thread that is not inside recv or send when its descriptor is closed never waits for its client again |
| ServerShutdown.UnopenedIsNotReaped | server/connection_thread.c:165-170 | a run in which a thread has exited and a whole pass leaves it in the list |
| ServerShutdown.EveryStepAdvances | server/connection_thread.c:154-204 | a bound on a thread's steps is lowered by each of them, raised by two by an arrival for it and changed by nothing else |
| ServerShutdown.ShutdownIsBounded | server/aesdsocket.c:160-171 | after the main loop no schedule is longer than a computed bound plus three times what arrives during it |
| ServerShutdown.ShutdownStopsExactly | server/aesdsocket.c:160-171 | when the server can do nothing more by itself, it has stopped exactly when no connection of the serial run stalls; otherwise the last one does, inside recv or send |
| ServerShutdown.ShutdownStopsForClients | server/aesdsocket.c:160-171 | when no call to the device fails, no text is a seek and no send blocks, it has stopped exactly when every thread whose device opened met an error, a close or a chunk that did not fill the buffer |
| SLists.ThreadList.InsertHead | server/queue.h:241-244 | the node becomes the first; everything else keeps its place |
| SLists.ThreadList.Remove | server/queue.h:248-260 | the search ends, exactly that node leaves the list, and it keeps its own link |
| SLists.ThreadList.RemoveAfter | server/queue.h:262-265 | the next node leaves the list |
| SLists.ThreadList.RemoveHead | server/queue.h:267-269 | the first node leaves the list |
| SLists.ThreadList.RemoveAndFree | server/aesdsocket.c:102-103 | exactly that node leaves the list and the memory; every other node keeps its record |
| SLists.ThreadList.Reap | server/aesdsocket.c:97-105 | the pass removes and frees exactly the nodes sampled complete, keeps the others in order, follows live links only and ends |
| SLists.SelectExactly | server/aesdsocket.c:98 | the selection is exactly the elements with that flag, none twice |
| SLists.SelectInOrder | server/aesdsocket.c:97-105 | the selection keeps the order of the list |
| SLists.ThreadList.DrainAll | server/aesdsocket.c:160-168 | the shutdown loop frees every node, first to last |
| TailQueues.Head.constructor | server/queue.h:690-694 | an initialised queue is well-formed and empty |
| TailQueues.Head.InsertHead | server/queue.h:721-732 | well-formed, and the element is first |
| TailQueues.Head.InsertTail | server/queue.h:734-742 | well-formed, and the element is last |
| TailQueues.Head.InsertAfter | server/queue.h:696-709 | well-formed, and the element follows the given one |
| TailQueues.Head.InsertBefore | server/queue.h:711-719 | well-formed, and the element precedes the given one, without access to the head |
| TailQueues.Head.Remove | server/queue.h:752-768 | well-formed, and exactly that element is gone |
| TailQueues.Head.Last | server/queue.h:744-745 | reading behind the last cell gives the last element or NULL |
| TailQueues.Head.Prev | server/queue.h:749-750 | reading behind the previous cell gives the element before or NULL |
| TailQueues.Head.Forward | server/queue.h:650-653 | forward traversal visits the sequence |
| TailQueues.Head.Backward | server/queue.h:670-673 | reverse traversal visits exactly the reverse of it |
| TailQueues.Concat | server/queue.h:635-644 | the second queue's elements follow the first's, and the second is empty; both well-formed |
| TailQueues.Swap | server/queue.h:770-785 | the two queues exchange their sequences; both well-formed |

## Left out

- Socket, bind, listen, accept, daemon and signal set-up of server/aesdsocket.c: incoming connections and the quit flag are nondeterministic choices of the model.
- Device registration, open, release and printk of aesd-char-driver/main.c: only the zeroed initial state and position 0 of a new file are modelled.
- Failing malloc and pthread_create in run_server: they abandon records and stop the loop; the model assumes creation succeeds.
- Numbers of file descriptors and their reuse: a close in the model concerns only the connection's own descriptor. That the number of a descriptor closed twice, by its thread and by the main thread, may by then name another file is operating-system state that is not modelled.
- Devices.Device.Write: excludes an empty write with nothing pending, which the driver does not define (byte -1 is read).
- SeekCommands.CopyField: excludes fields of ten and more characters, which overflow the code's buffers.
- SeekCommands.CheckForIoctlCommand: excludes texts with such fields, for the same reason.
- Connections.TakeChunk: excludes chunks with such fields, for the same reason.
- Connections.RecvMessages: excludes chunks with such fields, for the same reason.
- Connections.ServeConnection: excludes inputs with such fields, for the same reason.
- DeviceSessions.Session.Perform: excludes the empty write with nothing pending that the driver does not define.
- DeviceSessions.LoadRunUnload: excludes runs with such a write.
- Read and write copy faults as the server sees them: its buffers are on its own stack; the driver's side of such faults is modelled.
- Receive buffers without terminator: string searches stop at the received bytes by condition.
- SLists.ThreadList.Reap: covers the list nodes; joining, and freeing the thread and connection records, are steps of module Servers.
- The driver's device_mutex is not a state variable: each entry point holds it from its first to its last access, so a call is one step.
- SLIST_CONCAT, SLIST_SWAP, STAILQ, LIST and the tracing variants of server/queue.h: no difficulty beyond what is modelled.
- examples/, finder-app/, student-test/, shell scripts and build files: trivial functions, process spawning or configuration.
