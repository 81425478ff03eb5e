# AESD character device: a verified model

The AESD driver keeps a log of commands in a ring of ten slots. Writes gather in a pending string
until one ends in a newline; then the whole string is committed as one command and, once ten are kept,
the oldest is dropped. Reads, `llseek` and the seek ioctl speak of *absolute byte positions* in the log,
which the driver turns back into a command and a byte by adding up slot sizes. A socket server on top
writes each request to the device, or takes it for a seek command, and sends back what it then reads.

The project models that code and proves what it does, in two layers.

* **Values.** `CommandLog` is what the writes mean; `RingModel` is the ten slots, the window start and the
  resolution of positions as functions of the committed commands `H`; `Search` and `Positions` say exactly
  when positions, seeks and reads are right; `DeviceModel` is the state machine of system calls over many
  open files; `Replies` is what a client is sent; `SeekSyntax` is the language of seek commands.
* **Objects.** `Kernel.Heap` is the allocator, `RingBuffer.Ring` the buffer with its slots, counters and
  pointers, `Device.AesdDevice` the driver's calls, `Server` the connection and the request handling. Every
  method is proved against the value layer, with the C code's integer widths written out (`Machine`).

## What holds, and exactly when

Three index expressions of the driver mean what they should only under a condition, and the code is
modelled as it is: the search reads `entry[i - start_abs]` while the copy loop reads `entry[startp % 10]`;
the seek sums from slot 0; a commit adds the size of the *new* oldest command to `start_char_abs`.

* The window start is right exactly when the oldest live command is as long as the first one ever was
  (`ConservedIff`).
* All reads return what they should, at all positions, exactly when, besides, the first slots are as long as
  the live commands in order (`AlignedReadsIff`); so do all positions lead to the bytes they number
  (`AlignedIff`). For one position there is a condition on sizes of its own (`ReadExactIff`). Eleven
  commands of which the last is longer break it (`SearchCanMiss`).
  Runs of at most ten commits and runs of equal lengths never do; after every ten commits the slots are in
  order again.
* The copy loop never starts past the end of a command exactly when no slot is two bytes longer than the
  command it stands for, within reach of the log's end (`DefinedIff`).
* A seek and the search that follows it make the same mistake, so a seek to a live command and byte is right
  without alignment, exactly when the slot is long enough and the sum passes the end check
  (`SeekResolvesIff`), which refuses none exactly when the oldest live command is at most one byte longer than
  the first one was (`SeekEndCheckIff`, `WindowTooFar`). Rewinding and reading is always right
  (`RewindAfterRun`).
* The server's replies to seeks to live commands and bytes are all the log from the byte sought exactly when the
  first slots are as long as the live commands in order and the oldest live command is no longer than the first
  one was (`SeekRepliesIff`); on the log of `SearchCanMiss` one has every byte and ends with an error
  (`SeekReplyCanFail`).
* A server request opens the device anew at position 0, so an ordinary request is answered with the whole
  log exactly while nothing has been evicted, and with an error and no byte from then on
  (`Server.HandleRequest`). The copy of a request that is parsed has no NUL of its own, so a seek command is
  recognised exactly when only line ends lie behind the copy (`TailVerdict`).
* The numbers and characters that callers and clients rely on are written out in the theorems: the newline
  (`RunWellFormed`, `RunCommits`), whence (`SeekTells` and the reads after it), the ioctl word (`IoctlVerdict`),
  the line ends (`TrimTailIs`) and the text of a seek command (`SeekGrammar`, `NumberIs`, `NoSeek`).
* Each write that does not end in a newline, and has another after it, leaks one buffer; nothing else does
  (`LeakFreeIff`, `Device.AesdDevice.Valid`). No freed buffer is ever used.
* Slot and `in_offs` stay in step until `w_abs` wraps at 2^32; they agree exactly when the number of wraps is
  a multiple of five (`CountersInStepIff`).

Where comments and code differ the model follows the code: the header comment of
`aesd_circular_buffer_add_entry` (aesd-char-driver/aesd-circular-buffer.c:109-114) speaks of storing the
caller's entry in the slot at `in_offs` and of advancing `out_offs`, but the code copies the gathered pending
string into slot `w_abs % 10` and advances `start_abs`.

A C `char` is a Dafny `char` and a buffer's content a `string`; nothing depends on the width of a character.
`Slice(s, lo, hi)` is `s[lo..hi]`, `From(s, n)` is `s[n..]`, `Take(s, n)` is the first n characters or all.

## Model

| member | source | states |
|---|---|---|
| CommandLog.RunBytes | aesd-char-driver/aesd-circular-buffer.c:128-148 | the commands committed and the pending string, end to end, are all bytes written, in order |
| CommandLog.RunWellFormed | aesd-char-driver/aesd-circular-buffer.c:145-178 | every committed command is non-empty and its last byte is `'\n'`, a pending string's last byte is not, and the list of commands only grows |
| CommandLog.RunCommits | aesd-char-driver/aesd-circular-buffer.c:145-148 | one command is committed for each write whose last byte is `'\n'`, and none else |
| CommandLog.RegroupIff | aesd-char-driver/aesd-circular-buffer.c:128-148 | two neighbouring writes may be merged into one without changing the final state exactly when the first one's last byte is not `'\n'` |
| CommandLog.SameStateIff | aesd-char-driver/aesd-circular-buffer.c:128-177 | two series of writes leave the same state exactly when their bytes and their commit points are the same |
| CommandLog.LeakFreeIff | aesd-char-driver/aesd-circular-buffer.c:128-140 | no pending buffer is leaked exactly when all writes but perhaps the last have `'\n'` for their last byte |
| Machine.CountersInStepIff | aesd-char-driver/aesd-circular-buffer.c:150-172 | with 32-bit wrap, slot `w_abs % 10` is the one `in_offs` names exactly when `w_abs` has wrapped a multiple of five times |
| RingModel.SlotsAfterCommit | aesd-char-driver/aesd-circular-buffer.c:150-158 | the rotated row of live commands changes in slot number-of-commits mod 10 and nowhere else |
| RingModel.SlotHolds | aesd-char-driver/aesd-circular-buffer.c:228-229 | slot k % 10 holds live command k |
| RingModel.StartCharExact | aesd-char-driver/aesd-circular-buffer.c:163-166 | `start_char_abs` misses the true start of the oldest live command by the difference of its length and the first command's |
| RingModel.ConservedIff | aesd-char-driver/aesd-circular-buffer.c:163-168 | window start plus live bytes is the write position exactly when the oldest live command is as long as the first one |
| Search.FaithfulIff | aesd-char-driver/aesd-circular-buffer.c:87-103 | for any row of slots: all positions of the window lead to the bytes they number exactly when sizes and window start are right |
| Positions.AlignedIff | aesd-char-driver/aesd-circular-buffer.c:87-103 | the same for the ring: each live position is resolved to its own byte exactly when the ring is aligned |
| Positions.UniformAligned | aesd-char-driver/aesd-circular-buffer.c:163-166 | with commands all of one length the ring is aligned after any number of commits |
| Positions.SearchCanMiss | aesd-char-driver/aesd-circular-buffer.c:90 | a concrete log on which a live position leads past the end of another command |
| Positions.DefinedIff | aesd-char-driver/aesd-circular-buffer.c:230-251 | no read copies from past the end of a command exactly when no scanned slot exceeds its command by two bytes within the log |
| Positions.ReadIsLiveSlice | aesd-char-driver/aesd-circular-buffer.c:195-303 | with the search aligned, a read returns the next len bytes of the live commands from its offset, fewer only at the end |
| Positions.AlignedReadsIff | aesd-char-driver/aesd-circular-buffer.c:206-303 | every read, at every position and of every length, returns the log from its position on, and fails out of range, exactly when the ring is aligned |
| Positions.RewindReadsLive | aesd-char-driver/aesd-circular-buffer.c:226-290 | in every state a read at the window start returns the first bytes of the live commands, across the physical wrap |
| Positions.ReadExactIff | aesd-char-driver/aesd-circular-buffer.c:206-303 | the reads at one position return the log from there on exactly when the slot it falls into begins where its command begins and the command is long enough |
| Positions.EndFoundIff | aesd-char-driver/aesd-circular-buffer.c:217-220 | a read at the end of the log finds the end exactly when the oldest live command is no longer than the first one ever was |
| Positions.ReadSplits | aesd-char-driver/aesd-circular-buffer.c:243-293 | from a position in place to a position in place, reading a bytes and then b is reading a + b |
| Positions.SeekInvertsSearch | aesd-char-driver/aesd-circular-buffer.c:330-343 | in every state each offset below the slot total is the seek sum of exactly one slot and byte, the pair the search returns |
| Positions.SeekResolvesIff | aesd-char-driver/main.c:282-287 | a seek to a live command and byte leads there exactly when the slot is long enough and the end check passes, aligned or not |
| Positions.SeekEndCheckIff | aesd-char-driver/aesd-circular-buffer.c:206 | the end check refuses no live slot and byte exactly when the oldest live command is at most one byte longer than the first one ever was |
| Positions.WindowTooFar | aesd-char-driver/aesd-circular-buffer.c:163-166 | a concrete log on which the window starts too far right, so that a live command is refused and a read at the end gives old bytes |
| Positions.SeekThenRead | aesd-char-driver/main.c:282-287 | the read after it returns the command from that byte on and the later commands, up to len |
| Positions.SeeksIff | aesd-char-driver/main.c:282-287 | all live commands and bytes can be sought exactly when the search is aligned and the oldest live command is at most one byte longer than the first one ever was |
| Positions.AlignedSeek | aesd-char-driver/main.c:282-287 | in an aligned ring the position that a seek sets is the number of the byte sought |
| Positions.WindowFindExact | aesd-char-driver/aesd-circular-buffer.c:44-70 | the circular-window search gives the slot and byte of the window at that offset, and nothing exactly past its end |
| Positions.WindowIs | aesd-char-driver/aesd-circular-buffer.c:44-70 | the window is (in + 9 - out) mod 10 + 1 slots long and its entry t is slot (out + t) mod 10 |
| Positions.SearchesAgree | aesd-char-driver/aesd-circular-buffer.c:34-106 | with no eviction and out_offs 0 both searches give the same slot and byte, and past the end nothing and w_abs |
| DeviceModel.RunLog | aesd-char-driver/main.c:191 | the log after any run of calls is that of its writes alone, whatever reads and seeks come between |
| DeviceModel.RunWritten | aesd-char-driver/main.c:197-200 | over any run of calls the results of the writes add up to what the log, pending string included, has grown by |
| DeviceModel.LogRefinement | aesd-char-driver/main.c:68-201 | through any interleaving, a file that only reads collects exactly the log between its first and its last position, provided each position it reads from is in place |
| DeviceModel.LogRefinementAligned | aesd-char-driver/main.c:68-201 | the same when the ring is aligned at each of its reads |
| DeviceModel.LogRefinementUnconditional | aesd-char-driver/main.c:68-201 | the same with no hypothesis on the ring for runs of at most ten commits or of equal command lengths |
| DeviceModel.RunGrows | aesd-char-driver/aesd-circular-buffer.c:145-178 | over any run of calls the commands stay well-formed, the log only grows and no file is lost |
| DeviceModel.RewindThenRead | aesd-char-driver/main.c:222-224 | in any well-formed state SEEK_SET to 0 and one read give the oldest live bytes and move the position by as many |
| DeviceModel.RewindAfterRun | aesd-char-driver/main.c:222-224 | so it is after every run of calls |
| DeviceModel.SeekTells | aesd-char-driver/main.c:222-237 | for whence 0, 1 and 2 the result is the position set, counted from window start, position and end; nothing else changes, and a seek by 0 from there tells it again; any other whence leaves all as it was and returns -22 |
| DeviceModel.EndThenRead | aesd-char-driver/main.c:228-230 | (-k, 2) and a read of k give the last k bytes of the log, if the position reached is in place, as all are in an aligned ring (`Positions.AlignedPlacedIff`) |
| DeviceModel.SetThenRead | aesd-char-driver/main.c:222-224 | (k, 0) and a read give the live bytes from k on when the search is aligned |
| DeviceModel.ReadThenSkip | aesd-char-driver/main.c:225-227 | after a read of n bytes, (k, 1) and a second read give the log from k bytes past the end of the first, positions in place as before |
| DeviceModel.ReadRefusedIff | aesd-char-driver/aesd-circular-buffer.c:206-213 | in every state a read returns -1, and then changes nothing, exactly at a position before the window start or past the end |
| DeviceModel.IoctlVerdict | aesd-char-driver/main.c:260-290 | of all 32-bit command words only that of direction 3, size 8, type 0x16 and number 1 seeks: it returns 0 and sets the position to window start, slot sizes and offset summed modulo 2^32; any other leaves all as it was and returns -22 |
| DeviceModel.IoctlThenRead | aesd-char-driver/main.c:282-287 | the seek ioctl and one read give the log from the byte sought, with the 32-bit sums of the driver |
| Kernel.Heap.Kfree | aesd-char-driver/aesd-circular-buffer.c:153-155 | only a live buffer can be freed, and only it goes away |
| RingBuffer.Ring.constructor | aesd-char-driver/aesd-circular-buffer.c:186-193 | the initial ring is valid and empty |
| RingBuffer.Ring.Accumulate | aesd-char-driver/aesd-circular-buffer.c:128-140 | the pending buffer becomes a new one with the old bytes and the chunk; nothing else in memory changes |
| RingBuffer.Ring.Commit | aesd-char-driver/aesd-circular-buffer.c:148-178 | the pending string becomes the newest command, every invariant of the ring holds again, and memory changes in the slot's buffer and the freed pending buffer alone |
| RingBuffer.Ring.StoreInSlot | aesd-char-driver/aesd-circular-buffer.c:150-158 | the slot gets a buffer of its own with the pending bytes, only its old buffer is freed, the other slots are untouched |
| RingBuffer.Ring.AdvanceCounters | aesd-char-driver/aesd-circular-buffer.c:161-172 | the five counters become those of the longer log, through the driver's 8- and 32-bit updates |
| RingBuffer.Ring.InitEntry | aesd-char-driver/aesd-circular-buffer.c:322-328 | the pending buffer is freed once and the slots keep theirs |
| RingBuffer.Ring.AddEntry | aesd-char-driver/aesd-circular-buffer.c:115-181 | a last byte `'\n'` commits pending string and chunk as one command, any other leaves them pending; all representations still agree, the caller's buffer is kept, and no buffer but the overwritten slot's is freed or changed |
| RingBuffer.Ring.FindEntryOffsetAndIndexForFpos | aesd-char-driver/aesd-circular-buffer.c:73-106 | the search loop ends and returns the coordinates of the offset among the scanned slots, or w_abs past them |
| RingBuffer.Ring.FindEntryOffsetForFpos | aesd-char-driver/aesd-circular-buffer.c:34-71 | for any in_offs and out_offs the three window loops return the window byte at the offset or nothing |
| RingBuffer.Ring.GetBytesToOfs | aesd-char-driver/aesd-circular-buffer.c:330-343 | the loop returns the 32-bit seek sum |
| RingBuffer.Ring.CopyOut | aesd-char-driver/aesd-circular-buffer.c:222-290 | the copy loop ends and fills the buffer with the data from the first command's byte on, or starts past the end of that command, and says exactly when |
| RingBuffer.Ring.Read | aesd-char-driver/aesd-circular-buffer.c:195-303 | result, new position and buffer are those of the read function of the log, failure and end of data included |
| Device.AesdDevice.Open | aesd-char-driver/main.c:44-53 | a new file starts at position 0 |
| Device.AesdDevice.Read | aesd-char-driver/main.c:68-113 | refines the read step |
| Device.AesdDevice.Write | aesd-char-driver/main.c:115-201 | refines the write step, returns the size of the chunk, gives its kernel buffer back, and keeps the buffers allocated equal to live slots, pending string and leak over all writes so far |
| Device.AesdDevice.Llseek | aesd-char-driver/main.c:202-238 | refines the seek step, for which `SeekTells`, `EndThenRead`, `SetThenRead` and `ReadThenSkip` hold |
| Device.AesdDevice.Ioctl | aesd-char-driver/main.c:240-294 | refines the ioctl step, for which `IoctlVerdict` and `IoctlThenRead` hold |
| SeekSyntax.ScanExact | server/aesdsocket.c:446-449 | the scanner accepts the whole line with values x, y exactly when the line is a seek command of these values, in the sense of `SeekGrammar` |
| SeekSyntax.SeekGrammar | server/aesdsocket.c:446 | a seek command is the text `AESDCHAR_IOCSEEKTO:`, white space, sign, digits, a comma, white space, sign, digits, and its values are those of the two numbers |
| SeekSyntax.NumberIs | server/aesdsocket.c:446 | white space is blank and tab to carriage return, a sign is plus or minus or absent, digits are 0 to 9; a minus negates modulo 2^32 |
| SeekSyntax.ValueGrows | server/aesdsocket.c:446 | digits are read to base ten: one more digit c makes v into 10 v + c |
| SeekSyntax.DecIs | server/aesdsocket.c:446 | among the digit strings the one printed for n is that of value n without leading zeros |
| SeekSyntax.DecLength | server/aesdsocket.c:446 | it has k digits exactly when n lies between the matching powers of ten |
| SeekSyntax.NoSeek | server/aesdsocket.c:446-449 | a line without the prefix or a comma, or in which prefix or first comma is followed by no character that can begin a number, is no seek command |
| SeekSyntax.SeekUnique | server/aesdsocket.c:446-449 | no line stands for two different pairs |
| SeekSyntax.PrintThenTrim | server/aesdsocket.c:431-450 | `AESDCHAR_IOCSEEKTO:`, white space, sign, a printed 32-bit number, comma, white space, sign, a printed number, and any string over `'\n'` and `'\r'` behind it, is trimmed to the command and read back; -n reads as 2^32 - n modulo 2^32 |
| SeekSyntax.SeekLine | server/aesdsocket.c:446-449 | the line `AESDCHAR_IOCSEEKTO:12,305` is the pair 12, 305 |
| SeekSyntax.TrimTailIs | server/aesdsocket.c:431-435 | what is trimmed consists of `'\n'` and `'\r'` only, and what stays ends in neither |
| CStrings.CStrExact | server/aesdsocket.c:433 | the string that is trimmed and parsed is the prefix of the array up to the first `'\0'` |
| CStrings.Strlen | aesd-char-driver/aesd-circular-buffer.c:224 | the loop finds the first NUL |
| Server.TrimCrlf | server/aesdsocket.c:431-435 | the C string in the array loses its trailing `'\n'` and `'\r'`, all of them and nothing else, and no other character is overwritten |
| Server.ParseSeekCommand | server/aesdsocket.c:438-450 | accepts exactly the lines that are seek commands (`SeekGrammar`) after trimming (`TrimTailIs`), with their numbers |
| Server.Connection.WriteAll | server/aesdsocket.c:175-203 | whatever the calls of write do, what is sent is a prefix in order, as long as `Delivery` says for them; result 0 exactly when it is everything |
| Server.DeliveryStops | server/aesdsocket.c:175-203 | everything that the calls offer to send before the first that sends nothing or breaks gets out, across interruptions, and nothing after it; that is a failure exactly when it is less than all |
| Replies.DrainPlaced | server/aesdsocket.c:272-290 | reads of 1024 bytes from a position in range give the log from there to the end, in exactly one read more than the data takes, if the positions on the way are in place |
| Replies.FreshDrain | server/aesdsocket.c:265-275 | from position 0 they give the whole log while nothing has been evicted and are refused ever after |
| Replies.SeekRepliesIff | server/aesdsocket.c:272-290 | the replies to seeks to live commands and bytes are all the log from the byte sought, ended as they should, exactly when the search is aligned and the oldest live command is no longer than the first one ever was |
| Replies.SeekRepliesAtFullTurn | server/aesdsocket.c:272-290 | whenever the number of commits is a multiple of ten that is exactly when the oldest live command is no longer than the first |
| Replies.SeekReplyCanFail | server/aesdsocket.c:275-281 | a concrete log on which the reply to a seek has every byte and yet ends with an error |
| Replies.SoughtDrain | server/aesdsocket.c:272-290 | the reply to one seek is right under that condition, or if the positions on its way are in place |
| Server.Relay | server/aesdsocket.c:275-289 | one pass sends the client what one read of 1024 bytes returns, in all three outcomes of the read |
| Server.Reply | server/aesdsocket.c:272-290 | in every state of the ring the client gets what the drain from the file's position gives, its error code tells how the drain ended, and the loop ends after as many reads |
| Server.WriteToOutFile | server/aesdsocket.c:333-365 | if the request, with the bytes that lie behind its copy, is a seek command it becomes the ioctl step, else the write step |
| Server.TerminatedRequest | server/aesdsocket.c:348-353 | with a NUL in the request or right behind the copy the verdict is on the request alone |
| Server.TailVerdict | server/aesdsocket.c:348-353 | a printed seek command with its newline is taken for one exactly when nothing but `'\n'` and `'\r'` lies behind the copy up to a NUL |
| Replies.FreshPosition | server/aesdsocket.c:265-275 | position 0 is in the window exactly while nothing has been evicted |
| Server.HandleRequest | server/aesdsocket.c:264-296 | an ordinary request joins the log and is answered with the whole log while there was no eviction, else with an error and no byte; a seek command is answered, in every state, with the drain from the position set, which for a live byte is the log from there under the condition of `Replies.SeekRepliesIff` |

## Left out

- Server.HandleRequest: for a seek command to a live byte where the condition of `SeekRepliesIff` fails it promises the drain from the position set, and that this is the log from the byte sought only if the positions on the way are in place; some such replies may be right all the same.
- Server.WriteToOutFile: somewhere behind the copy there must be a NUL, since what the parser does without one C does not define. The driver takes a write whole, so the send loop around it is one call.
- DeviceModel.LogRefinement: needs each position that the file reads from to be in place, which by `ReadExactIff` is exactly when all reads from it are right; some single read may be right by its length or by equal bytes all the same. After a read that C does not define nothing is known of a real run; the model goes on with the state unchanged.
- SeekSyntax.Number.Val: reduces modulo 2^32; section 7.21.6.2 of ISO/IEC 9899:2011 leaves numbers of 2^32 and more undefined.
- RingBuffer.Ring.AddEntry: command numbers and total bytes stay below 2^31, the range of the driver's `int` positions; beyond it `CountersInStepIff` says what becomes of the slots.
- RingBuffer.Ring.Read: an access past the end of a command is reported as an overrun, since C defines nothing there; the read's bounce buffer is an array of its own and not a heap buffer.
- DeviceModel.Enabled: reads and writes of size zero (the driver looks at a byte before or in an empty buffer) and seeks with a command number above ten (it sums past the slot array) have no defined behaviour and are excluded.
- The `full` flag and `out_offs` as moved by reads: nothing on the read or write path depends on them; `out_offs` is a parameter of the window search.
- `aesd_circular_buffer_free` and a second initialisation: no run of the driver calls them.
- Failing allocations, `copy_to_user`, `copy_from_user`, `access_ok`, NULL devices: user copies always succeed and are assignments.
- Locks and threads: the driver's lock calls are commented out and the server joins each thread at once, so calls are atomic steps.
- Closing files: `aesd_release` does nothing to the device, so a file stays open.
- Module loading, cdev registration, logging, signals, sockets, the timer and the receiving side of the server.
- `finder-app`, `examples`, shell scripts and `student-test`: thin wrappers around system calls.
