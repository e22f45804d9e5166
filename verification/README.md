# Verified model of the server framework's stateful cores

The repository is a C++ coroutine server framework: a block-list byte buffer with typed codecs, a
timer set, an N-worker fiber scheduler, an epoll-based I/O manager under hooked blocking calls, and
an HTTP/1.1 request printer and parser. This project models these parts in Dafny, operation by
operation, and proves what their documentation and their callers rely on.

| files | modules | models |
|---|---|---|
| `Collections.dfy` | `Collections` | optional values, and a sequence without one element |
| `Bytes.dfy`, `Varint.dfy`, `Zigzag.dfy` | `Bytes`, `Varint`, `Zigzag` | machine words, byte order, varints, zigzag |
| `Blocks.dfy`, `ByteArray.dfy` | `Blocks`, `ByteArrays` | block growth and cutting; the linked blocks refining one flat file with a cursor |
| `TypedStream.dfy` | `TypedStream` | typed readers and writers, and a whole write-then-read session |
| `TimerSpec.dfy`, `TimerManager.dfy` | `TimerSpec`, `TimerManagers` | the timer set as a state machine, and the objects that implement it |
| `IoSpec.dfy`, `IOManager.dfy`, `Hook.dfy` | `IoSpec`, `IOManagers`, `Hook` | event slots against the kernel's interest map, and the wait/timeout protocol of blocking calls |
| `Scheduler.dfy` | `Scheduler`, `TaskQueues` | worker loop, queue scan, counters and shutdown in every interleaving |
| `IdleLoop.dfy` | `IdleLoop` | when the I/O manager stops and how long it waits, across timers, slots and scheduler |
| `HttpRequest.dfy`, `HttpParser.dfy` | `HttpRequests`, `HttpParsers` | request printer, request machine with marks and callbacks |
| `HttpReference.dfy`, `HttpRoundTrip.dfy` | `HttpReference`, `HttpRoundTrip` | a reference parser that the machine computes; the round trip between printer and machine |

`dafny verify dfyconfig.toml` checks everything. Where the source changes objects in place there is
a class whose methods are proved to compute a pure function of the old state; the properties over
runs and interleavings are then proved about those functions. Concurrency is a step relation: one
step is one section that the source runs under a lock or as one atomic update. What a function means is
stated without naming it, in the lemmas called `...Meaning` and their like. Where Dafny would try
a proof by induction by itself, that is switched off: every induction is written out.

## What the code does where its documentation says more

* `addCapacity` (`src/bytearray.cpp:611`) compares the remainder with the room that is left, not
  with zero as `include/bytearray.h:456` needs. The code is kept as it is. `Blocks.GrowthSuffices`
  says exactly when enough blocks are added; `Write`, `GetWriteBuffers` and everything above them
  carry that condition, and report `NullDereference` where the code walks off the block list.
  `Blocks.GrowthFallsShort` gives two requests that meet it with the default block size.
* `read` of zero bytes looks at `m_cur` (`src/bytearray.cpp:463`) even when the cursor is at the
  end of the last block. So an empty string that ends exactly there cannot be read back
  (`TypedStream.ValueRoundTrip`, `TypedStream.Session`; `TypedStream.EmptyTextAtTheEnd` is one).
* `triggerEvent` leaves the slot's callback in place (`src/iomanager.cpp:27-41`), and the check at
  line 163 only logs in a release build. A fiber that later waits on the same slot is not woken:
  `IoSpec.StaleCallback` shows it, `IoSpec.AddKeepsOwnedIff` says exactly when it happens.
* The dispatch loop adds both events on an error or hang-up without masking them with the
  registered ones (`src/iomanager.cpp:386-426`). `IoSpec.DispatchKeepsBooksIff` says exactly when the
  dispatch ends with the counter right, and `IoSpec.ErrorReportCrashes` gives a report for which it
  calls a null scheduler.
* A timeout releases the blocked fiber exactly when it is the first of the call to set the flag, comes
  to cancel the event while the fiber waits, and `epoll_ctl` succeeds (`src/hook.cpp:171-190`):
  `Hook.TimeoutWakesIff`, and `Hook.TimeoutOfACall` over the whole life of a call. One that is over
  before `addEvent` is spent (`Hook.EarlyTimeoutIsLost`).
* `reset` does not notify (`src/timer.cpp:94-106`): `TimerSpec.ResetKeepsWatchIff` says exactly when
  the sleeping thread still wakes in time, and `TimerSpec.ResetMissesAWakeUp` gives a reset after which
  it does not.
* The probe of `listExpiredCb` is a fresh object (`src/timer.cpp:191-192`), so its address decides
  whether a timer due exactly now fires. The address is a parameter.
* `stopping()` is not stable, because a worker stops counting as active before it puts a READY
  fiber back (`src/scheduler.cpp:145-150`): `Scheduler.StoppingLostIff` and
  `Scheduler.StoppingIsNotStable`.
* A fiber that yields READY loses the thread its task was pinned to: `schedule(ft.fiber)`
  (`src/scheduler.cpp:147`) gives no thread: `Scheduler.SettleMeaning`.
* `epoll_wait` is meant to wait three seconds at most (`src/iomanager.cpp:343-354`). The comparison casts the
  time to the next deadline to `int`, so a time with bit 31 set is passed on as a negative timeout, which is
  none: `IdleLoop.WakesInTimeIff` says exactly when the wait ends in time, and
  `IdleLoop.WaitsWithoutLimit` gives one timer for which it has no limit.
* `detectClockRollover` is meant to see the clock turned back by more than an hour. Its subtraction wraps, so
  during the first hour of the clock every step back counts (`src/timer.cpp:231-241`):
  `TimerSpec.RolloverMeaning`.
* `schedule` never tickles for a single task: the answer of `scheduleNoLock` is dropped
  (`include/scheduler.h:30-43`): `TaskQueues.TaskQueue.Schedule`.
* MSEARCH is printed as `M - SEARCH` (`include/http/http.h:49`), which the request grammar cannot
  read: `HttpRoundTrip.ReadBackIff`.
* A method is compared only as far as the name in the table goes (`src/http/http.cpp:20-30`), so `GETX` is
  read as GET: `HttpRequests.MethodOf`.
* An empty fragment is read as the whole target, because its mark is still that of the path
  (`src/http/http11_parser.rl:79-82,140,212`): `HttpReference.MachineIsReference` for every text,
  `HttpReference.EmptyFragment` for one.
* `execute` is documented to return the length that it parsed and to remove that much
  (`include/http/http_parser.h:34-38`). But `nread` is never reset (`src/http/http11_parser.rl:300-308`),
  so the offset is the total over all calls: a call returns what it parsed exactly when nothing was
  counted before (`HttpParsers.OffsetIsLengthIff`), so the first call on a parser that reads anything is
  right and every later one is wrong (`HttpParsers.OnlyFirstReadIsRight`). After a complete
  head another call reads nothing, drops as many characters as were read before, or runs past the end
  of the buffer, and ends in the error state (`HttpParsers.AfterCompleteHead`, `HttpRoundTrip.SecondCall`);
  `HttpRoundTrip.SecondRequestIsDropped` is the shortest request, given twice.
* `http_parser_init` leaves `uri_relaxed` unset (`src/http/http11_parser.rl:260-274`). It is a
  parameter, and the round trip holds for both values.

## Model

| member | source | states |
|---|---|---|
| Bytes.WordRoundTrip | src/bytearray.cpp:73-125 | a signed or unsigned value survives the cast to its word and back, at every width |
| Bytes.LittleRoundTrip | src/bytearray.cpp:73-125 | the bytes of a word in memory determine the word |
| Bytes.LittleOnto | src/bytearray.cpp:247-295 | every byte string is the image of exactly one word |
| Bytes.ImageRoundTrip | include/endian_cpp.h:16-60 | either byte order is undone by reading in the same order |
| Bytes.SwapInvolution | include/endian_cpp.h:16-60 | byteswap stays in the word and undoes itself |
| Bytes.SwappedImage | src/bytearray.cpp:73-125 | swapping exactly when host and chosen order differ stores the chosen order |
| Bytes.SwappedRead | src/bytearray.cpp:240-295 | the same on the way back |
| Bytes.BytePlaces | include/endian_cpp.h:16-60 | in either order, which byte of the word lies at which address |
| Zigzag.XorWithMask | src/bytearray.cpp:144-159 | at any width, the bitwise exclusive or with the negated low bit is complement or identity; the decoder is defined by it |
| Zigzag.XorOfValues | src/bytearray.cpp:151-159 | the processor's exclusive or of two words is the bitwise one of their numbers, at every width up to 64 |
| Zigzag.XorWithMask32 | src/bytearray.cpp:151-154 | on 32-bit words the source's expression complements or keeps the halved word, and is its exclusive or with all ones or none |
| Zigzag.XorWithMask64 | src/bytearray.cpp:156-159 | the same on 64-bit words |
| Zigzag.DecoderOnWords32 | src/bytearray.cpp:151-154 | computed with the processor's shift, subtraction and exclusive or, the source's decoder is the model's |
| Zigzag.DecoderOnWords64 | src/bytearray.cpp:156-159 | the same on 64-bit words |
| Zigzag.EncodeMeaning | src/bytearray.cpp:127-142 | a value codes to its double, a negative one to twice its absolute value less one, the minimum included |
| Zigzag.DecodeMeaning | src/bytearray.cpp:144-159 | even codes are halves, odd codes negative, although computed with wrap-around |
| Zigzag.DecodeEncode | src/bytearray.cpp:127-159 | every signed word comes back from its code |
| Zigzag.EncodeDecode | src/bytearray.cpp:127-159 | every unsigned word is the code of a signed one: a bijection |
| Varint.Encode | src/bytearray.cpp:166-195 | the writer's loop ends within 5 or 10 bytes with the unsigned LEB128 code |
| Varint.LebBytes | src/bytearray.cpp:166-195 | byte k of a code carries bits 7k to 7k + 6 of the value, and the continuation bit exactly if it is not the last |
| Varint.LebLength | src/bytearray.cpp:166-195 | the code has at most k bytes exactly for values below 2^(7k) |
| Varint.PrefixFree | src/bytearray.cpp:166-195 | no code is the start of another |
| Varint.OrIsSum | src/bytearray.cpp:302-343 | or-ing a shifted group into an accumulator without bits from the shift up adds it, modulo the word |
| Varint.DecodeMeaning | src/bytearray.cpp:302-343 | on any bytes: it stops behind the first byte without continuation bit or where the shift leaves the word, fails exactly when the bytes end before that, and returns their number modulo the word |
| Varint.DecodeEncode | src/bytearray.cpp:302-343 | decoding from any shift and accumulator adds the value and consumes exactly its code |
| Varint.DecodeWord | src/bytearray.cpp:302-343 | every 32-bit and 64-bit value comes back, whatever bytes follow |
| Varint.DecodeBound | src/bytearray.cpp:302-343 | n bytes decode to at most 7n bits, over-long and overflowing input included |
| Varint.EncodeIsShortest | src/bytearray.cpp:166-195 | no byte string decodes to a value with fewer bytes than the writer's |
| Blocks.GrowthSuffices | src/bytearray.cpp:598-634 | the blocks added are enough exactly when the missing bytes are whole blocks or their remainder exceeds the old room |
| Blocks.GrowthMeaning | src/bytearray.cpp:598-634 | a request of q blocks and r bytes beyond the room gets q blocks, and one more exactly when r exceeds the room |
| Blocks.GrowthIsTight | src/bytearray.cpp:598-634 | one block less would never be enough |
| Blocks.GrowthFallsShort | src/bytearray.cpp:606-611 | two requests for which too few blocks are added |
| Blocks.DivMod | src/bytearray.cpp:414-420 | block index and offset are the quotient and remainder of the address |
| Blocks.WroteIsSplice | src/bytearray.cpp:412-453 | byte-by-byte change of exactly one range is the same as splicing |
| Blocks.SpliceAt | src/bytearray.cpp:412-453 | byte by byte, what a write leaves at each address |
| Blocks.SpliceTwice | src/bytearray.cpp:412-453 | two writes in a row are one write of both |
| Blocks.CutCovers | src/bytearray.cpp:746-780 | the slices are non-empty, each inside one block, adjoin, and cover exactly the range |
| Blocks.CutShape | src/bytearray.cpp:746-780 | one slice per block: each but the first begins its block, each but the last ends it |
| Blocks.Partition | src/bytearray.cpp:746-780 | every address of the range lies in exactly one slice |
| ByteArrays.ByteArray.constructor | src/bytearray.cpp:31-45 | a fresh array is empty, one block, big-endian |
| ByteArrays.ByteArray.Clear | src/bytearray.cpp:397-410 | only the first block is left, with its bytes, and cursor and size are zero |
| ByteArrays.ByteArray.AddCapacity | src/bytearray.cpp:598-634 | the block list grows at its end by exactly the code's count; bytes, cursor and size stay; a null cursor block is set to the first new block |
| ByteArrays.ByteArray.CursorBlock | src/bytearray.cpp:528-549 | the cached block is number position / base, and null exactly at the end of the last block |
| ByteArrays.ByteArray.CopyIn | src/bytearray.cpp:420-452 | the block walk of write changes exactly the range and moves the cursor, or falls off the list exactly when the room is short |
| ByteArrays.ByteArray.Write | src/bytearray.cpp:412-453 | refines a write to one flat file: exactly [pos, pos+n) changes, size is the maximum; fails exactly when growth is short |
| ByteArrays.ByteArray.CopyOut | src/bytearray.cpp:463-488 | the block walk of read returns exactly the slice |
| ByteArrays.ByteArray.Read | src/bytearray.cpp:455-489 | the n bytes of the blocks behind the cursor; out_of_range without effect exactly when fewer are left in the file; the null block exactly for zero bytes at the very end |
| ByteArrays.ByteArray.SetPosition | src/bytearray.cpp:528-549 | the cursor moves anywhere up to the capacity, the file grows up to it, beyond is out_of_range without effect |
| ByteArrays.ByteArray.Seek | src/bytearray.cpp:537-548 | the walk ends in the block of the new position, null exactly at the capacity |
| ByteArrays.ByteArray.View | src/bytearray.cpp:671-701 | the walk of the buffer getters yields the cut of the range |
| ByteArrays.ByteArray.GetReadBuffers | src/bytearray.cpp:666-701 | never fails, and shows the readable bytes from the cursor, at most as many as asked |
| ByteArrays.ByteArray.GetWriteBuffers | src/bytearray.cpp:746-780 | room for n bytes behind the cursor, defined exactly when growth suffices; the file is as before |
| ByteArrays.ByteArray.PeekThroughBuffers | src/bytearray.cpp:666-701 | gathering the read slices gives what read would return |
| ByteArrays.ByteArray.Scatter | src/bytearray.cpp:746-780 | filling the slices in order changes exactly the range they cover |
| ByteArrays.ByteArray.WriteThroughBuffers | src/bytearray.cpp:746-780 | scattering into write slices and setPosition leave the same file as write, in the same cases |
| ByteArrays.ByteArray.ReadInPlace | src/bytearray.cpp:491-526 | the walk of the positional read, at the cursor, returns exactly the slice and moves nothing |
| ByteArrays.ByteArray.ToString | src/bytearray.cpp:636-646 | all readable bytes, cursor unmoved |
| TypedStream.WriteFixed | src/bytearray.cpp:64-125 | a fixed-width write stores the image in the array's byte order, whatever the host's |
| TypedStream.WriteUint | src/bytearray.cpp:166-195 | a varint write stores the LEB128 code |
| TypedStream.WriteString | src/bytearray.cpp:211-233 | length, cut to its prefix, then bytes, as two writes; `TextBytes` says which bytes |
| TypedStream.TextBytes | src/bytearray.cpp:211-233 | the length is stored in 2, 4 or 8 bytes or as a varint, modulo 2^16, 2^32 or 2^64, and then the string; and which strings fit |
| TypedStream.NumberBytes | src/bytearray.cpp:64-195 | the bytes of every kind of number: two's complement in the chosen order, or the LEB128 code of the value or of its zigzag code; and which kinds are offered |
| TypedStream.ReadFixed | src/bytearray.cpp:240-295 | a fixed-width read returns what the front bytes mean in the array's byte order, or fails as read does |
| TypedStream.ReadUint | src/bytearray.cpp:302-343 | the varint loop computes the decoder on the bytes behind the cursor, failing as it does |
| TypedStream.ReadString | src/bytearray.cpp:361-395 | length, then that many bytes, failing as either read does |
| TypedStream.NumberRoundTrip | src/bytearray.cpp:64-195 | a number of any offered kind comes back, consuming exactly its bytes |
| TypedStream.ValueRoundTrip | src/bytearray.cpp:64-233 | any value comes back whatever follows, except the empty string at the end of the last block |
| TypedStream.LongTextIsCut | src/bytearray.cpp:211-227 | a string too long for its prefix never comes back |
| TypedStream.SufficesSplit | src/bytearray.cpp:598-634 | growth over a run of writes splits at any point |
| TypedStream.UnitBlocksSuffice | src/bytearray.cpp:598-634 | with blocks of one byte every run of writes finds room |
| TypedStream.WriteAll | src/bytearray.cpp:64-233 | a list of values lands behind the cursor as the concatenation of their codes, exactly when growth suffices for each write |
| TypedStream.ReadAll | src/bytearray.cpp:240-395 | the matching readers return the list and use up its bytes |
| TypedStream.Session | src/bytearray.cpp:64-395 | write any list to a fresh array, go back to 0, read: the same list and nothing left, for every block size; it fails in exactly two stated cases |
| TypedStream.EmptyTextAtTheEnd | src/bytearray.cpp:455-463 | the second case at a real input: blocks of two bytes and one empty string |
| TimerSpec.InsertProperties | src/timer.cpp:138-142 | inserting keeps the strict order by deadline and identity and adds exactly the timer |
| TimerSpec.FindPresent | src/timer.cpp:50-53 | a timer in the set is found, by its own key |
| TimerSpec.CancelKeepsInv | src/timer.cpp:43-57 | cancel answers whether a callback was there, empties it, removes exactly this timer, and its assertion never fails |
| TimerSpec.RearmKeepsInv | src/timer.cpp:59-108 | refresh and reset change one key only while it is outside the set, and keep membership and order |
| TimerSpec.OrderMeaning | src/timer.cpp:10-30 | the set is in the order of deadlines, and of addresses where those are equal |
| TimerSpec.RefreshMeaning | src/timer.cpp:59-75 | the deadline of an armed timer becomes now plus its period in a 64-bit word, and nothing else changes; to a disarmed one it does nothing and says so |
| TimerSpec.ResetMeaning | src/timer.cpp:77-108 | the deadline becomes now plus the new period, or moves by the difference of the periods; the same period, not from now, is left alone |
| TimerSpec.GetNextMeaning | src/timer.cpp:155-172 | all ones when nothing is armed, otherwise the time to the first deadline or zero; the flag is cleared |
| TimerSpec.RolloverMeaning | src/timer.cpp:231-241 | a rollover is a step back of more than an hour, or any step back in the first hour |
| TimerSpec.AddKeepsInv | src/timer.cpp:116-153 | adding notifies exactly when the new deadline comes first and nobody was notified yet |
| TimerSpec.ExpiredIsDue | src/timer.cpp:186-194 | the erased front is exactly the timers due, the probe's address deciding at equality |
| TimerSpec.ListExpiredMeaning | src/timer.cpp:175-208 | due timers and no others are delivered, each once, in order; one-shots are emptied and leave, recurring ones stay at now plus period, the rest is untouched |
| TimerSpec.ExpiryMeaning | src/timer.cpp:175-208 | on the fields alone: who fires, by deadline, address and the two clocks; what becomes of the fired and of the others |
| TimerSpec.ATimerFires | src/timer.cpp:110-208 | a timer added to a new manager fires when its period is over |
| TimerSpec.CallbacksOfExpired | src/timer.cpp:195-208 | the callbacks handed out are those the fired timers had, in deadline order, none empty |
| TimerSpec.NothingOverdueLeft | src/timer.cpp:175-208 | afterwards no deadline in the set is before now, with or without rollback |
| TimerSpec.ApplyKeepsInv | src/timer.cpp:43-208 | every operation keeps: strictly sorted, and in the set exactly when armed |
| TimerSpec.DisarmedNeverFires | src/timer.cpp:43-57 | over any run, a disarmed timer is never delivered |
| TimerSpec.CancelIsFinal | src/timer.cpp:43-57 | cancel returning true means it is never delivered |
| TimerSpec.OneShotFiresOnce | src/timer.cpp:196-207 | over any run, a one-shot timer is delivered at most once |
| TimerSpec.SleepUntilEarliest | src/timer.cpp:155-172 | the answer of getNextTimer sleeps past no deadline and up to one that exists |
| TimerSpec.NoMissedWakeUp | src/timer.cpp:138-227 | over any run of add, cancel, refresh, harmless reset and expiry on a non-decreasing clock, the sleeper was notified once or every deadline is at or behind the one it saw; and the state is fit for the next interval |
| TimerSpec.WakeUpAfterGetNext | src/timer.cpp:138-227 | the same from the call of getNextTimer on: at most one notification, and none only if nothing is due earlier |
| TimerSpec.RunStaysOnTime | src/timer.cpp:43-227 | every run on a non-decreasing clock, with any reset and any number of getNextTimer, keeps what that needs: no deadline counts from the future |
| TimerSpec.NoIntervalMissesAWakeUp | src/timer.cpp:110-227 | from the constructor, after any such past, the interval that the next getNextTimer starts misses no wake-up |
| TimerSpec.ResetKeepsWatchIff | src/timer.cpp:77-108 | reset keeps that guarantee exactly when it moves no awaited deadline before it |
| TimerSpec.ResetMissesAWakeUp | src/timer.cpp:94-106 | a reset after which a timer is due before the sleeper wakes |
| TimerManagers.TimerManager.LowerBoundOf | src/timer.cpp:192 | the search over the timer objects finds the model's lower bound |
| TimerManagers.TimerManager.CancelTimer | src/timer.cpp:43-57 | on the objects, cancel computes the model's step and answer |
| TimerManagers.TimerManager.RefreshTimer | src/timer.cpp:59-75 | on the objects, refresh computes the model's step and answer, and an armed timer's `m_next` is now plus its period |
| TimerManagers.TimerManager.ResetTimer | src/timer.cpp:77-108 | on the objects, reset computes the model's step and answer, with period and deadline of the timer written out |
| TimerManagers.TimerManager.AddTimer | src/timer.cpp:116-153 | a fresh object enters the set; the notification is the model's |
| TimerManagers.TimerManager.GetNextTimer | src/timer.cpp:155-172 | on the objects, getNextTimer computes the model's step and answer |
| TimerManagers.TimerManager.DetectClockRollover | src/timer.cpp:231-241 | the clock is remembered, and the answer is the model's with its wrap-around |
| TimerManagers.TimerManager.ListExpiredCb | src/timer.cpp:175-208 | the two loops over the objects compute the model's set and callbacks |
| TimerManagers.TimerManager.SettleAll | src/timer.cpp:196-208 | the loop that hands out callbacks and re-inserts recurring timers |
| IoSpec.Report.Events | src/iomanager.cpp:386-398 | READ is reported for EPOLLIN, an error or a hang-up, WRITE for EPOLLOUT, an error or a hang-up |
| IoSpec.AddMeaning | src/iomanager.cpp:139-176 | a registration sets its one bit in table and kernel mask and fills its slot; a fiber leaves an earlier callback in place; nothing else changes |
| IoSpec.TriggerMeaning | src/iomanager.cpp:27-41 | a trigger schedules the slot's callback, or else its fiber, clears the bit and leaves the slot as it is; it needs a scheduler in the slot |
| IoSpec.CtlMeaning | src/iomanager.cpp:147-160 | what `epoll_ctl` refuses, and what it does to the interest map |
| IoSpec.NothingSet | src/iomanager.cpp:178-293 | where nothing is registered, withdrawing, cancelling and dispatching answer no and change nothing |
| IoSpec.KernelAfterOne | src/iomanager.cpp:178-249 | after delEvent the kernel watches exactly what is left; after cancelEvent it keeps the old mask while another event is set |
| IoSpec.KernelAfterMany | src/iomanager.cpp:251-427 | after cancelAll the kernel does not watch the descriptor, after a dispatch exactly what is left |
| IoSpec.ChosenOpIsLegal | src/iomanager.cpp:147-195 | the chosen operation never adds a present descriptor or changes an absent one |
| IoSpec.AddAgrees | src/iomanager.cpp:84-177 | addEvent keeps kernel and slots in agreement and fails only when the kernel does |
| IoSpec.DelAgrees | src/iomanager.cpp:178-214 | delEvent keeps the agreement |
| IoSpec.CancelAgrees | src/iomanager.cpp:216-249 | cancelEvent keeps it, although it leaves the cleared bit in the kernel's mask |
| IoSpec.CancelAllAgrees | src/iomanager.cpp:251-293 | cancelAll keeps it |
| IoSpec.DispatchAgrees | src/iomanager.cpp:384-427 | dispatch keeps it |
| IoSpec.AddKeepsLedgerIff | src/iomanager.cpp:139-176 | the count stays the number of set bits exactly when the event was not set already |
| IoSpec.AddKeepsOwnedIff | src/iomanager.cpp:162-175 | the slot belongs to the new waiter exactly when no callback was left in it, or it brings one |
| IoSpec.DelKeepsInv | src/iomanager.cpp:178-214 | delEvent succeeds exactly for a set event when the kernel does; then this event is gone, its slot empty, the count one less, and nobody is scheduled |
| IoSpec.TriggerKeepsBooks | src/iomanager.cpp:27-41 | one bit less, one count less, one task scheduled, and that of the waiter |
| IoSpec.TriggerAllKeepsBooks | src/iomanager.cpp:27-41 | triggering set events clears them, frees exactly their waiters' slots, and schedules exactly the waiters, in order |
| IoSpec.CancelKeepsInv | src/iomanager.cpp:216-249 | a set event is triggered, alone, unless the kernel fails; otherwise nothing changes |
| IoSpec.CancelAllKeepsInv | src/iomanager.cpp:251-293 | exactly the set events of the descriptor are triggered, unless the kernel fails, and no null scheduler is called |
| IoSpec.CancelAllClears | src/iomanager.cpp:280-291 | afterwards no event of it is set, so the assertion at the end holds, and one task is scheduled for each that was |
| IoSpec.DispatchKeepsInv | src/iomanager.cpp:384-427 | dispatch of a report within the registered events triggers exactly the reported ones, unless the kernel fails, and keeps all books |
| IoSpec.DispatchEachReleases | src/iomanager.cpp:373-427 | the whole dispatch loop: exactly the waiters of the reported events are scheduled, report by report and reading before writing, and all books are kept |
| IoSpec.UnmaskedTriggers | src/iomanager.cpp:417-426 | what unmasked events take off the counter and off the bits |
| IoSpec.DispatchKeepsBooksIff | src/iomanager.cpp:386-426 | the dispatch ends with the counter right exactly when the reported events were all registered |
| IoSpec.ErrorReportCrashes | src/iomanager.cpp:386-426 | an error on a descriptor with one registered event calls a null scheduler |
| IoSpec.ApplyKeepsInv | src/iomanager.cpp:84-427 | every operation keeps agreement, ledger and filled slots |
| IoSpec.RunKeepsInv | src/iomanager.cpp:84-427 | over every run, registrations = withdrawals + scheduled tasks + set events, and the counter never underflows |
| IoSpec.StaleCallback | src/iomanager.cpp:27-41 | a run in which a callback left in a slot runs in place of the fiber that waits |
| IOManagers.IOManager.Extend | src/iomanager.cpp:71-82 | growing keeps all contexts and adds empty ones |
| IOManagers.IOManager.AddEvent | src/iomanager.cpp:84-177 | on the objects, addEvent computes the model's step and result |
| IOManagers.IOManager.DelEvent | src/iomanager.cpp:178-214 | on the objects, delEvent computes the model's step and result |
| IOManagers.IOManager.TriggerEvent | src/iomanager.cpp:27-41 | on the objects, triggerEvent computes the model's step, a null scheduler included |
| IOManagers.IOManager.CancelEvent | src/iomanager.cpp:216-249 | on the objects, cancelEvent computes the model's step and result |
| IOManagers.IOManager.CancelAll | src/iomanager.cpp:251-293 | on the objects, cancelAll computes the model's step and result |
| IOManagers.IOManager.DispatchOne | src/iomanager.cpp:384-427 | on the objects, one report is dispatched as in the model |
| IOManagers.IOManager.DispatchAll | src/iomanager.cpp:373-427 | the loop over all reports of one wait |
| Hook.MayHappen | src/hook.cpp:148-221 | when each step of a call can happen: at any time its timer, and a resumption exactly of a fiber that is queued |
| Hook.BlockKeepsInv | src/hook.cpp:148-187 | a call that would block waits for exactly its descriptor and event, with the flag clear; nothing else changes |
| Hook.RegisterKeepsInv | src/hook.cpp:190-209 | registering parks the fiber in its slot, or, when it fails, gives the call up with nothing registered; nobody is queued |
| Hook.FireKeepsInv | src/hook.cpp:176-187 | the first timeout to set the flag of a call is about to cancel its event, once; one that finds the flag set does nothing |
| Hook.LateKeepsInv | src/hook.cpp:176-187 | a callback that sets the flag too late still makes one cancel due and changes nothing else |
| Hook.CancelStepKeepsInv | src/hook.cpp:186-187 | the cancel that a timeout goes on to is made once |
| Hook.CancelReleases | src/iomanager.cpp:216-249 | cancelling moves exactly the waiter of a set event from its slot to the queue, unless the kernel fails |
| Hook.CancelAllReleases | src/iomanager.cpp:251-293 | cancelling all moves exactly the waiters of the descriptor, unless the kernel fails |
| Hook.DispatchReleases | src/iomanager.cpp:384-427 | readiness moves exactly the waiters of the reported events from their slots to the queue, unless the kernel fails |
| Hook.ResumeKeepsInv | src/hook.cpp:209-220 | the resumed fiber is off the queue, returns if the flag is set, and otherwise returns or arms again |
| Hook.ApplyKeepsInv | src/hook.cpp:148-221 | every action of every fiber, worker and timer keeps: parked means in the slot or queued, never both, never twice |
| Hook.NeverTwiceNeverForgotten | src/hook.cpp:148-221 | in every run, a blocked fiber is queued at most once, never while its event is set for it, and is never forgotten |
| Hook.ACallCompletes | src/hook.cpp:148-221 | a whole call happens in the model: it blocks, registers, is reported and returns |
| Hook.WokenIff | src/hook.cpp:203-209 | a step queues a waiting fiber exactly when it is one that clears its event |
| Hook.ReadinessWakesIff | src/iomanager.cpp:384-427 | a dispatched report queues the fiber exactly when it is for its descriptor, the kernel does not fail, and it has EPOLLIN for a reader, EPOLLOUT for a writer, or an error or a hang-up |
| Hook.WokenIffFreed | src/hook.cpp:203-209 | over every run in which it is not resumed, the fiber is queued at the end exactly when some step cleared its event |
| Hook.FirstOneWins | src/hook.cpp:333-369 | whoever clears the event first wins: nothing puts the fiber back or queues it again before it runs |
| Hook.StaysQueued | src/hook.cpp:333-369 | over every run, a fiber on its way stays queued until it is resumed |
| Hook.TimeoutWakesIff | src/hook.cpp:176-187 | a timeout queues the waiting fiber exactly when the flag was clear and the kernel does not fail |
| Hook.FlagIffFired | src/hook.cpp:180-185 | over every run, the flag of a call is set exactly when its timer has fired |
| Hook.TimeoutOfACall | src/hook.cpp:171-221 | over the whole life of a call, a timeout releases it exactly when none fired before, in particular none before the registration, and the kernel does not fail |
| Hook.EarlyTimeoutIsLost | src/hook.cpp:171-190 | a timeout that is over before addEvent is spent, and a later one wakes nobody |
| Hook.LateCancelWakes | src/hook.cpp:176-190 | one that fires before addEvent but cancels after it does wake the fiber |
| Scheduler.FirstEligible | src/scheduler.cpp:110-133 | the scan finds the first task that is unpinned or pinned to this thread, and a callback or a fiber that is not executing; every task before it is none |
| Scheduler.ScanMeaning | src/scheduler.cpp:105-134 | a scan takes that task out of its place and counts the worker active; it finds nothing exactly when the worker may run none |
| Scheduler.StartMeaning | src/scheduler.cpp:140-172 | an ended fiber is done with unrun, any other runs, a callback runs in the kept fiber or a new one |
| Scheduler.SettleMeaning | src/scheduler.cpp:145-185 | a READY fiber is queued again, unpinned; an ended one is put away or reset; any other holds; a callback fiber is kept only if it ended |
| Scheduler.EnqueueMeaning | include/scheduler.h:74-84 | who may schedule, and that the task goes to the back and touches no fiber that exists |
| Scheduler.ComesBackIff | src/scheduler.cpp:142-185 | in which states a running fiber comes back to the worker |
| Scheduler.MoveMeaning | src/scheduler.cpp:142-206 | what the other steps change, and that a worker leaves exactly when its idle fiber has ended |
| Scheduler.IdleMayEndIff | src/scheduler.cpp:301-308 | the idle fiber may end exactly after the stop, with an empty queue and no worker between taking and finishing a task |
| Scheduler.AccountsKept | src/scheduler.cpp:109-206 | every step keeps both counters and the task books |
| Scheduler.BooksAlwaysBalance | src/scheduler.cpp:109-206 | in every interleaving the active count is the workers that hold a taken task, the idle count those inside their idle fiber, and tasks scheduled = queued + held + done, as multisets |
| Scheduler.ExecutingKept | src/scheduler.cpp:144-185 | a fiber that is executing is inside some worker or is a thread's main fiber |
| Scheduler.PinnedTasksStay | src/scheduler.cpp:113-118 | in every interleaving a task pinned to a thread is in no other thread's hands |
| Scheduler.WorkersCanMove | src/scheduler.cpp:103-207 | no worker ever gets stuck before it leaves |
| Scheduler.LastScan | src/scheduler.cpp:110-133 | a task that the last worker's last scan passes over is pinned to another thread or a main fiber |
| Scheduler.DrainedKept | src/scheduler.cpp:187-206 | every step keeps: while no worker can scan any more, nothing is queued that one could have taken |
| Scheduler.DrainOnExit | src/scheduler.cpp:103-207 | in every interleaving, once all workers have left, the counters are zero and every task is done or queued, the queued ones pinned or main fibers, and none of them pinned to the thread that scanned last |
| Scheduler.OneWorkerDoesItsOwn | src/scheduler.cpp:103-207 | a single worker finishes everything that is unpinned or pinned to its own thread |
| Scheduler.EverythingIsDone | src/scheduler.cpp:103-207 | without pinned tasks and main fibers everything scheduled is done |
| Scheduler.StoppingLostIff | src/scheduler.cpp:301-308 | a yes of stopping() is lost exactly by scheduling a task or by putting a READY fiber back |
| Scheduler.OneRunsOneIdlesIsReached | src/scheduler.cpp:103-207 | a run of two workers to the state where one runs a task and one idles |
| Scheduler.StoppingIsNotStable | src/scheduler.cpp:145-150 | from there stopping() says yes, an idle fiber ends, and the answer changes |
| IdleLoop.StoppingIff | src/iomanager.cpp:312-316 | after time zero the I/O manager stops exactly when no timer is armed, no event is set, and the scheduler is told to stop, with an empty queue and no worker holding a task |
| IdleLoop.NoTimerIff | src/iomanager.cpp:314-315 | all ones from getNextTimer means that no timer is armed, but for one corner |
| IdleLoop.PendingIff | src/iomanager.cpp:315 | the count is zero exactly when no event of any descriptor is set |
| IdleLoop.NobodyIsLeftBehind | src/iomanager.cpp:312-316 | in every run of the blocking calls, when the I/O manager may stop, no fiber is left inside a call, neither in a slot nor on its way back |
| IdleLoop.WaitMeaning | src/iomanager.cpp:343-354 | the wait is at most three seconds and at most the time asked for, and negative exactly when bit 31 is set other than in all ones |
| IdleLoop.WakesInTimeIff | src/iomanager.cpp:333-354 | the wait ends within three seconds and by every deadline exactly when the time to the first one has no bit 31 |
| IdleLoop.WaitsWithoutLimit | src/iomanager.cpp:344-354 | one timer of 2^31 milliseconds, and the first wait has no limit |
| TaskQueues.TaskQueue.ScheduleNoLock | include/scheduler.h:74-84 | a task goes to the back, an empty one is dropped; the answer says whether the queue was empty |
| TaskQueues.TaskQueue.Schedule | include/scheduler.h:30-43 | one task goes to the back, and nobody is tickled for it, even on an empty queue |
| TaskQueues.TaskQueue.ScheduleRange | include/scheduler.h:46-62 | the range is appended in order without its empty items, the caller's storage is emptied, and it tickles exactly for a non-empty range on an empty queue |
| TaskQueues.TaskQueue.TakeTask | src/scheduler.cpp:105-134 | the loop takes the first task this thread may run, its own pinned ones included, counts the worker active, and tickles exactly when it passed over a task pinned to another thread |
| HttpRequests.NamesAreDistinct | src/http/http.cpp:20-30 | the method read from a buffer is the one whose name it starts with, whatever follows |
| HttpRequests.MethodOf | src/http/http.cpp:20-30 | the method is the first of the table whose name the text begins with, and invalid exactly when there is none |
| HttpRequests.StandardMethods | include/http/http.h:21-58 | the numbers and printed names of the nine methods of RFC 7231, section 4, and RFC 5789 |
| HttpRequests.LessIsOrder | src/http/http.cpp:62-65 | the header comparison is a strict order, and equivalence is equality up to case |
| HttpRequests.SameLetters | src/http/http.cpp:62-65 | two characters of a name count as the same exactly if they are, or are the two cases of one letter |
| HttpRequests.FindMeaning | src/http/http.cpp:72-76 | a header is found exactly when there is one of that name, in any spelling |
| HttpRequests.PutLookup | src/http/http.cpp:96-99 | setting a header changes what is found under its name and nothing else, and keeps the map sorted |
| HttpRequests.DelLookup | src/http/http.cpp:111-114 | deleting one removes what is found under its name and nothing else |
| HttpRequests.DecimalRoundTrip | src/http/http.cpp:207 | a printed number reads back |
| HttpRequests.HttpRequest.SetHeader | src/http/http.cpp:96-99 | on the object, as in the model |
| HttpRequests.HttpRequest.DelHeader | src/http/http.cpp:111-114 | on the object, as in the model |
| HttpRequests.HttpRequest.ToString | src/http/http.cpp:168-215 | the printing loop over the header map writes the text of the model |
| HttpRequests.DumpExample | src/http/http.cpp:168-215 | the text of one request with query, fragment, body and a connection header, letter by letter |
| HttpParsers.HttpRequestParser.OnRequestMethod | src/http/http_parser.cpp:32-43 | the callback sets the method, or error 1000 |
| HttpParsers.UnknownMethodIff | src/http/http_parser.cpp:32-43 | error 1000 exactly for text that begins with no name of the table, and then the request stays |
| HttpParsers.PathCharacters | src/http/http11_parser.rl:129-138 | the characters of a path are those of RFC 3986, sections 2.2, 2.3 and 3.3, and three more when relaxed |
| HttpParsers.UriCharacters | src/http/http11_parser.rl:138-146 | where slashes, question marks and colons may stand in path, query and fragment |
| HttpParsers.TokenCharacters | src/http/http11_parser.rl:224-233 | the characters of a header name are those of a token in section 3.2.6 of RFC 7230 |
| HttpParsers.HttpRequestParser.OnRequestVersion | src/http/http_parser.cpp:59-79 | the callback sets the version, or error 1001 |
| HttpParsers.HttpRequestParser.OnHttpField | src/http/http_parser.cpp:87-97 | the callback sets the header, or error 1002 |
| HttpParsers.OddVersionAndName | src/http/http_parser.cpp:59-97 | error 1001 exactly for another version, error 1002 exactly for a header without a name |
| HttpParsers.HttpRequestParser.ReadLine | src/http/http11_parser.rl:129-222 | one character of the request line moves state, marks and request as the grammar's actions do |
| HttpParsers.HttpRequestParser.ReadHeaders | src/http/http11_parser.rl:224-241 | the same for header lines and the end of the head |
| HttpParsers.HttpRequestParser.Advance | src/http/http11_parser.rl:278-309 | the loop over the buffer is the run of the machine, and stops where it stops |
| HttpParsers.HttpRequestParser.Execute | src/http/http_parser.cpp:124-129 | on the object, a call computes the model's state and answer, and moves exactly what lies behind the offset to the front; a count past the end is told apart |
| HttpParsers.OffsetIsLengthIff | include/http/http_parser.h:34-38 | from any state and for any buffer within the modelled grammar, the length parsed is returned exactly when nothing was counted before |
| HttpParsers.OnlyFirstReadIsRight | src/http/http11_parser.rl:300-308 | after any calls on a new parser, the next one returns the length it parsed exactly when none of them read anything |
| HttpParsers.AfterCompleteHead | src/http/http11_parser.rl:278-309 | after a complete head a call reads nothing, drops as many characters as were read so far or runs past the end, and leaves the error state |
| HttpParsers.MoveDown | src/http/http_parser.cpp:127 | the overlapping move |
| HttpRequests.LengthMeaning | include/http/http.h:224-240 | a header with a printed number, in any spelling of its name, is that length, and a length other than 0 is the number in such a header |
| HttpParsers.HttpRequestParser.GetContentLength | src/http/http_parser.cpp:130-133 | a printed number under the name comes back, and an answer other than 0 is the number in a header of that name |
| HttpReference.MachineIsReference | src/http/http11_parser.rl:53-309 | on every text, the machine with its marks and callbacks comes to the verdict of a parser that splits the text at its delimiters: the same request, error number and end, or the same first character that is refused |
| HttpReference.BodyBehindHead | src/http/http11_parser.rl:105-116 | wherever a head ends, the body is said to begin |
| HttpReference.LinesRead | src/http/http11_parser.rl:224-241 | the same for header lines from any line start on, whatever the lines before left behind |
| HttpReference.TargetRead | src/http/http11_parser.rl:136-215 | the same for a target and what follows it |
| HttpReference.VersionRead | src/http/http11_parser.rl:220-222 | the same for the version and what follows it |
| HttpReference.EmptyFragment | src/http/http11_parser.rl:79-82 | a target with an empty fragment reads back with itself as its fragment |
| HttpRoundTrip.MethodPart | src/http/http11_parser.rl:218 | a printed method is read back and leaves the machine before the URI |
| HttpRoundTrip.TextLoop | src/http/http11_parser.rl:136-142 | well-formed URI text, percent triplets included, is passed over unchanged |
| HttpRoundTrip.UriPart | src/http/http11_parser.rl:138-215 | path, query and fragment are read back from a printed target |
| HttpRoundTrip.VersionPart | src/http/http11_parser.rl:220-222 | the printed version is read back |
| HttpRoundTrip.LinePart | src/http/http11_parser.rl:231-239 | one printed header line sets one header |
| HttpRoundTrip.LastLineCounts | src/http/http_parser.cpp:87-97 | after any lines, a name shows the value of its last line |
| HttpRoundTrip.EntriesUnder | src/http/http.cpp:196-203 | the printed entries show the map, without the connection entry unless it is a websocket |
| HttpRoundTrip.HeadAndBody | src/http/http.cpp:175-215 | the printed text is its head and then exactly the body |
| HttpRoundTrip.ParseOfDump | src/http/http11_parser.rl:53-241 | parsing a printed request consumes exactly its head whatever follows, and gives back method, path, query, fragment, version and every header; the lines the printer adds read `close` or `keep-alive` by the flag, and the length of the body |
| HttpRoundTrip.Framing | src/http/http.cpp:205-213 | what is left is the body and what follows; the content length is the body's, whatever the header map held |
| HttpRoundTrip.MSearchFails | src/http/http11_parser.rl:218-222 | every printed MSEARCH request stops the machine at its fifth character |
| HttpRoundTrip.ReadBackIff | include/http/http.h:49 | an otherwise printable request is read back exactly when its method is not MSEARCH |
| HttpRoundTrip.SecondCall | src/http/http_parser.cpp:124-129 | after a printed request the first call is right, and a second one drops a head's length of any text unread |
| HttpRoundTrip.SecondRequestIsDropped | src/http/http_parser.cpp:124-129 | the shortest request given twice: both calls answer 18, the second has read nothing |
| HttpRoundTrip.Receive | src/http/http_parser.cpp:124-133 | one call of execute on a buffer with a printed request: offset, moved buffer, request, connection header and content length |

## Left out

- Files, sockets, epoll, the wake-up pipe, threads, stack switching, logging and configuration are not modelled; the kernel's answers and the clock are parameters.
- Sizes are unbounded: a file or a total of sizes near 2^64, and memory running out, are not modelled.
- Floats and doubles: the source copies their bits into unsigned words, which are modelled.
- `writeStringWithoutLength` is `write`, and has no reader; `toHexString` and the file transfers are left out.
- The positional `read` and the positional `getReadBuffers` are modelled only at the cursor, where `toString` and the non-positional form use them, since the former starts from the current block.
- TypedStream.Session: values are read with the matching readers; reading with another kind is covered by the readers' contracts but not by the session.
- Timers without a callback: `addTimer` is modelled with a non-empty callback, as its callers pass one.
- TimerSpec.NoMissedWakeUp: runs in which `reset` moves an awaited deadline before the bound are excluded, because the source does not notify there; `ResetKeepsWatchIff` gives the exact condition. Deadlines do not wrap around 2^64 in these runs.
- IoSpec.RunKeepsInv: reports are within the registered events and an event is not added twice, which is what the `...Iff` lemmas show to be needed.
- Closing a descriptor, which removes it from the kernel's set, is not an action of the model.
- Hook.NeverTwiceNeverForgotten: fibers wait on slots whose callback is empty, which `AddKeepsOwnedIff` shows to be needed; the calls before and after the wait, and `errno`, are not modelled.
- Hook.FireKeepsInv: reading and setting the flag is one step, at the moment of the setting. A callback that read the flag as clear before another one set it, or before its call returned, is the action `Late`, which is allowed at any time; cancelling the event afterwards is a step of its own for both.
- IdleLoop.StoppingIff: the three parts of `stopping` are read at one moment; the source reads them one after the other. At time zero a deadline of all ones counts as none (`NoTimerIff`).
- IdleLoop.NobodyIsLeftBehind: the scheduler's queue is taken to hold every fiber that the slots have released; the two models are joined only there.
- Wake-ups through the pipe (`tickle`) are not claimed: the source writes to it only when no thread is idle.
- Mutual exclusion of one fiber across workers inside a context switch is not claimed: yielding is one atomic step.
- `stop` is one step that sets its flags; joining threads and running the root fiber in the caller's thread are not modelled, and a root fiber counts as a main fiber.
- HttpParsers.HttpRequestParser.Execute: a call in the middle of a token, whose mark points into an earlier buffer, and text that leaves the modelled part of the grammar, end in `NotModelled`.
- The request grammar's absolute URIs, authorities, empty targets, `SocketJSON` and `SocketXML`, and empty or folded header values are not modelled; neither are control characters in names and values, on which readings of line 224 of the grammar differ.
- HttpRequests.LessIsOrder: header names with a NUL byte, at which the source's comparison stops, are compared in full.
- HttpParsers.HttpRequestParser.GetContentLength: a value with a sign, which the source's conversion may accept, counts as no number.
- Cookies, parameters, responses and the response parser are left out.
