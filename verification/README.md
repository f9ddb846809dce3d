# Verification of the Mcucpp algorithms

Mcucpp is a header library for microcontrollers. Most of it wraps registers; a few headers hold dense algorithms.
This project models those algorithms in Dafny and proves what they promise. There is one module per header or
component; `dafny verify dfyconfig.toml` checks all of them.

What is proved, module by module:

* `Div`, `Mul32`, `FastDiv10` – two-digit long division in wrapping 32-bit arithmetic with its correction loops,
  the byte-wise product that keeps only the upper word, and division by ten as a shift-and-add series with one
  correction. Each returns the exact result for all operands; each proof shows where wrap-around cannot happen or
  cancels. `StringUtil` builds on them: printing and parsing round-trip, and the printed digits always fit.
* `KS0108` – drawing a bitmap through two page-organised display controllers with auto-incrementing column
  registers is, pixel by pixel, the output mode applied to the bitmap, complemented for the background colour, inside
  the clipped rectangle and nothing outside it.
* `RingMachine`, `RingMachinePO2`, `RingBuffer`, `BufferedOutput` – the interrupt-driven byte queue. Every interleaving
  of one producer and one consumer at single-access granularity is first in, first out, for the power-of-two buffer
  when it stores before it steps its counter, and every push that finds room and every pop that finds a value
  completes however the other side interleaves. The buffered output puts bytes on the wire in call order, from every
  state a call of `Write` can be brought to its end, and what is left in the buffer then reaches the wire exactly when
  the interrupt is enabled. The power-of-two buffer with its wrapping counters is a bounded queue for any number of
  operations.
* `Servo`, `DividerSelector` – the frame scheduler and the choice of its clock dividers. Every run of handler calls,
  position changes and new timings produces whole frames; in each frame a channel is high from the start for exactly
  its position in ticks of the divider in force. Positions are scaled to their exact share of the pulse range, and the
  divider chosen is the finest one whose counter covers the period.
* `FreeTree` – insertion into and deletion from the tree of free blocks, on the heap with the pointer-chasing loops,
  against insertion into and deletion from an ordered tree value.
* `Crc`, `CrcBits` – the byte-wise register equals the bit-serial one; the two bit orders mirror each other; a burst of
  transmitted bits no longer than the register is always detected, wherever it starts; `Crc32` is the CRC of
  section 8 of RFC 1952.
* `CrcCheck` – each class gives the check value it declares.
* `Utf8` – encoding and decoding round-trip for all code points up to 0x13FFFF, 0 included, and for no others; what
  any other bytes decode to and count for is given by ranges of byte values.
* `Dispatcher` – the timer table is a map from tasks to deadlines and ids, the task queue is first in, first out, and
  over every run each acceptance of a task is its own hand-in or a firing at or after the deadline then in force, and
  accepted tasks run in order. 2^24 - 1 ids in a row differ, so within that distance an id of a timer that is gone
  stops or restarts nothing.
* `MemPool` – the block bitmap with its isolating bit trick and the parallel bit count, against a set of live blocks.
* `Encoder` – quadrature channels decoded in parallel count the net displacement of a shaft.

`MachineInts`, `Modular`, `Bits8` and `Bits32` hold what the modules share: machine integers as ranges of `int` with
explicit wrap-around, residues for cyclic indices, and single bits of bit-vectors.
`Wrappers` holds the type of results that may be missing.

Loops and in-place updates of the library are methods with loops on arrays and object fields; their contracts tie the
result or the new state to specification functions, and the lemmas are about those functions. `goto` loops are
`while` loops with the same tests. Where two agents run at once (ring buffer, buffered output) every access to shared
memory is one step of a state machine. Single-bit facts are stated on bit-vectors of the operand's width.

The code decides where it differs from its own comments or from the obvious promise:

* The comment on the signed division promises the int32 maximum on overflow; the code returns 0x80000000, and so does
  `Div.Div64x32s`.
* Deletion from the free tree goes through a null link when the left child has a right child.
  `FreeTree.DeleteNode` completes exactly otherwise; `FreeTree.DeletionFails` gives a failing tree.
* `RingBuffer::operator[]` adds in `size_type`. `RingBuffer.IndexedSlotExact` says exactly when that finds the element,
  `RingBuffer.IndexedCapacityExact` for which capacities it always does, `RingBuffer.IndexedSlotFails` gives a failing index.
* The decoder rejects leading bytes from 245 on while the encoder produces them; `Utf8.RoundTripExact` is the exact range.
* `Crc16Modbus` declares its polynomial already mirrored but uses the table of `Crc16`; the class modelled here carries
  the polynomial of the table it uses.
* `SetTimer` with a period of zero stops the timer but still hands out a fresh id. `TimerHandler` also stops due timers
  whose tasks no longer fit into the queue.
* A byte that `Write` pushes after the handler has found the buffer empty stays there until the next `Write`:
  `BufferedOutput.DeliveredExactly` is the exact condition, `BufferedOutput.ByteLeftBehind` a run.
* Deadlines are computed in 32 bits. `Dispatcher.DeadlineExact`: a firing meets the time asked for exactly when that
  time does not pass the end of the tick counter; `Dispatcher.WrappedDeadline` gives a run that fires early.
* `RingBufferPO2::push_back` stores a value and steps the counter in one expression without fixing the order.
  `RingMachinePO2.FirstInFirstOut` holds for storing first; `RingMachinePO2.EarlyStepFails` is a schedule that fails otherwise.
* `SetPosition` and `Stop` let a negative channel number through to a write before the array, and `MemPool::Free`
  subtracts pointers, which is undefined inside a block; the methods tell exactly when that does not happen.
* An id whose top byte names no slot makes `StopTimer` and `RestartTimer` read past the table, and `RestartTimer` calls
  the clock without a test for null; the methods tell exactly when that does not happen.
* When the shortest pulse is not above the longest, a position at the upper end is scaled to the longest pulse exactly
  when the code's 32-bit product does not overflow.
* A pool of 8-bit map elements cannot count its used blocks, since `GetPopulatedBits` has no overload for them.
* A quadrature channel that moves two phases between captures counts nothing (`Encoder.CountExact`).

## Model

| member | source | states |
|---|---|---|
| Div.CountLeadingZeros | mcucpp/bit_functions.h:187-225 | 32 for zero; otherwise the one shift that moves the top bit to bit 31 |
| Div.Narrow | mcucpp/bit_functions.h:201-222 | one step of the binary search keeps the shifted value exact and its top bits within the narrowed range |
| Div.QuotientDigit | mcucpp/div.h:42-51 | from the estimate `hi / v1` the correction loop reaches the true quotient digit, in at most two corrections, each one less |
| Div.OvershootsIsExact | mcucpp/div.h:45 | the loop's test in wrapping arithmetic holds exactly when the estimate is above the true digit |
| Div.EstimateBounds | mcucpp/div.h:42-43 | the estimate is never below the true digit, which fits 16 bits |
| Div.MultiplySubtract | mcucpp/div.h:53 | multiply-and-subtract with 32-bit overflow is exact whenever the true difference fits 32 bits |
| Div.LongDivision | mcucpp/div.h:42-67 | two digits and the last remainder satisfy the division equation of the whole dividend |
| Div.DivideNormalized | mcucpp/div.h:39-67 | long division by a normalised divisor gives quotient and remainder with the remainder below the divisor |
| Div.Unscale | mcucpp/div.h:31-37 | quotient and unshifted remainder of the normalised operands are those of the original ones |
| Div.Halves | mcucpp/div.h:36-37 | the two shifted words are the upper and lower half of the scaled dividend, which does not overflow |
| Div.Div64x32u | mcucpp/div.h:14-68 | exact 64 by 32 bit division whenever the upper word is below the divisor, all ones otherwise |
| Div.OverflowGuard | mcucpp/div.h:24-29 | the guard refuses exactly a zero divisor or a quotient above 32 bits |
| Div.RestoreSigns | mcucpp/div.h:94-105 | the sign is put back exactly when the signed quotient fits int32; otherwise both results are the overflow mark |
| Div.SignedGuard | mcucpp/div.h:85-92 | the unsigned guard on the magnitudes fires only when the signed quotient does not fit |
| Div.Magnitudes | mcucpp/div.h:79-86 | the wrapped negations are the magnitudes, also for the smallest negative operands |
| Div.TruncatedDivision | mcucpp/div.h:70-107 | the results satisfy the division equation with the dividend's sign on the remainder |
| Div.Div64x32s | mcucpp/div.h:77-107 | truncated signed division exactly when the quotient fits int32; otherwise 0x80000000 twice |
| Mul32.Step | mcucpp/mul32hu.h:63-84 | every partial `a * b + w + k` fits 16 bits and is split into byte and carry without loss |
| Mul32.Row | mcucpp/mul32hu.h:63-67 | four steps add the first factor times one byte, carry included |
| Mul32.SumOfRows | mcucpp/mul32hu.h:60-87 | rows one byte further left each add up to the whole product |
| Mul32.Bytes | mcucpp/mul32hu.h:39-47 | the four truncating shifts are the bytes of the word |
| Mul32.Rows | mcucpp/mul32hu.h:58-85 | sixteen carry steps leave the 64-bit product in the eight bytes |
| Mul32.Mul32hu | mcucpp/mul32hu.h:34-91 | the upper word of the product of any two words |
| FastDiv10.SeriesBound | mcucpp/fastdiv10.h:62-70 | the shift-and-add series is at most 8n/10 and less than 9 below it, for every width |
| FastDiv10.Series | mcucpp/fastdiv10.h:62-70 | the same bound for the code's own sequence of shifts and adds, none of which overflows |
| FastDiv10.OneCorrection | mcucpp/fastdiv10.h:72-79 | within that bound the uncorrected remainder lies in 0..19, so one correction gives quotient and remainder |
| FastDiv10.DivModU10 | mcucpp/fastdiv10.h:58-81 | exactly n / 10 and n % 10 for all n of 8, 16, 32 and 64 bits |
| StringUtil.DigitsLength | mcucpp/string_util.h:106-110 | a number below 8^n has at most n digits in every radix from 8 on |
| StringUtil.BufferSuffices | mcucpp/string_util.h:106-110 | three digits per byte of the type are always enough |
| StringUtil.BufferTight | mcucpp/string_util.h:106-110 | the bound is reached by the largest 8- and 16-bit numbers in octal |
| StringUtil.LettersAre | mcucpp/char_trates.h:39-42 | digits are 0 to 9 and then lower-case letters |
| StringUtil.PrintStep | mcucpp/string_util.h:40-45 | a printed digit in front of the tail keeps quotient digits plus tail equal to the number's digits |
| StringUtil.UtoaFastDiv | mcucpp/string_util.h:34-47 | writes exactly the decimal digits and the terminator, nothing else, within the buffer size |
| StringUtil.UtoaOct | mcucpp/string_util.h:49-62 | the same for octal digits by mask and shift |
| StringUtil.UtoaHex | mcucpp/string_util.h:64-76 | the same for hexadecimal digits by mask and shift |
| StringUtil.UtoaBuiltinDiv | mcucpp/string_util.h:78-91 | the same digits by ordinary division in any radix, without terminator |
| StringUtil.TakeOne | mcucpp/string_util.h:163-167 | one more accepted character keeps the wrapped value of the digits taken so far |
| StringUtil.TakeDone | mcucpp/string_util.h:163-168 | the loop's exit is the end of the longest run of digits within the count, with the value of the run |
| StringUtil.StringToIntDec | mcucpp/string_util.h:158-169 | value modulo the type of the longest decimal run within the count, cursor behind it |
| StringUtil.StringToIntOct | mcucpp/string_util.h:171-182 | the same for octal |
| StringUtil.StringToIntHex | mcucpp/string_util.h:184-204 | the same for hexadecimal in either case |
| StringUtil.DigitsValue | mcucpp/string_util.h:158-204 | the digits of a number are accepted by the parser of their radix and have the number's value |
| StringUtil.DigitsTaken | mcucpp/string_util.h:158-204 | exactly which characters each parser takes |
| StringUtil.ValuesAre | mcucpp/string_util.h:184-204 | the value of every hexadecimal character in either case |
| StringUtil.RoundTrip | mcucpp/string_util.h:34-204 | parsing what was printed returns the number and stops at the terminator, for every width and radix |
| KS0108.AddressCommand | mcucpp/drivers/KS0108.h:242-246 | the address command with a column in its low bits sets the column register to it |
| KS0108.PageCommand | mcucpp/drivers/KS0108.h:235 | the page command with a page in its low bits sets the page register to it |
| KS0108.ClockEffects | mcucpp/drivers/KS0108.h:124-130 | an edge of E steps the column cyclically on data accesses, sets a register for the two ranges of commands, and has no other effect |
| KS0108.MergeBit | mcucpp/drivers/KS0108.h:265-297 | under the mask a stored bit survives, elsewhere it is the mode function of old and new bit, in all modes |
| KS0108.OutputModes | mcucpp/drivers/KS0108.h:62-77 | the five output modes are the admitted ones, and write, exclusive-or, and, and-not or invert each dot |
| KS0108.BackgroundComplements | mcucpp/drivers/KS0108.h:320-322 | with the invert bit toggled, drawing in the background colour is drawing the complemented source in the client's mode |
| KS0108.DrawnPixels | mcucpp/drivers/KS0108.h:310-359 | a drawing with the toggled mode clipped to the display, restated by the client's mode and colour for every pixel of the display |
| KS0108.PageMaskBit | mcucpp/drivers/KS0108.h:302-307 | the mask covers exactly the bits of the page outside the rows drawn |
| KS0108.StoredPixel | mcucpp/drivers/KS0108.h:249-300 | a merged write changes only the unmasked pixels of the addressed column and page, each by the mode function |
| KS0108.ColumnPixel | mcucpp/drivers/KS0108.h:339-352 | a page write of a collected column changes the column's pixels in the rows drawn, each by the mode function of its dot |
| KS0108.ShiftIn | mcucpp/drivers/KS0108.h:344-349 | shifting in one dot from above keeps the collected dots in their rows |
| KS0108.ShiftDown | mcucpp/drivers/KS0108.h:350 | the final shift moves the dots to their rows of the page and clears the rest |
| KS0108.DrawnColumn | mcucpp/drivers/KS0108.h:339-352 | a merged write at column j extends the drawn part of the page by exactly that column |
| KS0108.DrawnPage | mcucpp/drivers/KS0108.h:332-357 | pages drawn one after another add up to the whole rectangle |
| KS0108.Display.PulseE | mcucpp/drivers/KS0108.h:124-130 | a pulse clocks every selected controller and no other |
| KS0108.Display.Write | mcucpp/drivers/KS0108.h:224-229 | the byte on the bus reaches every selected controller |
| KS0108.Display.SetOutputMode | mcucpp/drivers/KS0108.h:109-112 | any of the five modes can be selected |
| KS0108.Display.SetPage | mcucpp/drivers/KS0108.h:231-247 | both controllers get the page; the one holding column x gets it, the right one starts at its first column otherwise |
| KS0108.Display.ReadBack | mcucpp/drivers/KS0108.h:266-276 | after the dummy read the byte read is the one the registers addressed; the column register has stepped twice |
| KS0108.Display.WriteData | mcucpp/drivers/KS0108.h:299 | the byte is stored where the selected controller's registers point, its column register steps, the other controller is untouched |
| KS0108.Display.Merge | mcucpp/drivers/KS0108.h:271-286 | the operator sequence computes the merged byte |
| KS0108.Display.WritePage | mcucpp/drivers/KS0108.h:249-300 | one merged write on the controller of the column, column register one further, the other controller untouched |
| KS0108.Display.ColumnBits | mcucpp/drivers/KS0108.h:341-350 | the byte holds exactly the dots of one bitmap column in the rows of the page |
| KS0108.Display.DrawPage | mcucpp/drivers/KS0108.h:334-352 | with the column register at j mod 64 before every column, the page is drawn |
| KS0108.Display.DrawPages | mcucpp/drivers/KS0108.h:324-357 | page after page, the bitmap clipped to the display is drawn in the mode in force and nothing else changes |
| KS0108.Display.DrawBitmap | mcucpp/drivers/KS0108.h:310-359 | every pixel of the display under the bitmap becomes the client's output mode applied to it and to the dot, the dot complemented when drawing in the background colour; every other pixel is unchanged, and the mode is restored |
| RingMachine.NoOverwrite | mcucpp/ring_buffer.h:302-304 | the slot about to be filled holds no unread value |
| RingMachine.ProduceKeepsInv | mcucpp/ring_buffer.h:299-310 | every access of `push_back` keeps the invariant of indices, count and histories |
| RingMachine.ConsumeKeepsInv | mcucpp/ring_buffer.h:312-325 | every access of `front` and `pop_front` keeps it, although the count drops before `_first` moves |
| RingMachine.RunKeepsInv | mcucpp/ring_buffer.h:299-325 | every interleaving keeps it |
| RingMachine.FirstInFirstOut | mcucpp/ring_buffer.h:299-325 | in every interleaving what is read is a prefix of what was pushed, no unread slot is overwritten, and a read finds the next value |
| RingMachine.Quiescent | mcucpp/ring_buffer.h:183-216 | between operations the count is the number of unread values, they lie in order from `_first`, and `_last` is behind them |
| RingMachine.PushFinishes | mcucpp/ring_buffer.h:299-310 | a `push_back` in progress ends with its remaining accesses, in every interleaving, with its value appended |
| RingMachine.PushCompletes | mcucpp/ring_buffer.h:299-310 | a `push_back` that finds room completes and appends its value in every interleaving; on a full buffer it changes nothing |
| RingMachine.PopFinishes | mcucpp/ring_buffer.h:312-325 | a pop in progress ends with its remaining accesses, in every interleaving, and reads at most one value |
| RingMachine.PopCompletes | mcucpp/ring_buffer.h:312-325 | a pop from a non-empty buffer completes and delivers the oldest unread value in every interleaving; on an empty one it changes nothing |
| RingBuffer.Unread | mcucpp/ring_buffer.h:183-216 | the unread values lie in consecutive slots from `_first`, cyclically |
| RingBuffer.UnreadPush | mcucpp/ring_buffer.h:299-310 | storing at `_last` appends to the unread values |
| RingBuffer.UnreadPop | mcucpp/ring_buffer.h:312-325 | stepping `_first` drops the oldest value |
| RingBuffer.RingBuffer.constructor | mcucpp/ring_buffer.h:199 | a new buffer is empty |
| RingBuffer.RingBuffer.PushBack | mcucpp/ring_buffer.h:299-310 | appends, or refuses exactly when full |
| RingBuffer.RingBuffer.PopFront | mcucpp/ring_buffer.h:312-325 | drops the oldest value, or refuses exactly when empty |
| RingBuffer.RingBuffer.Front | mcucpp/ring_buffer.h:218-223 | the oldest value |
| RingBuffer.IndexedSlotExact | mcucpp/ring_buffer.h:266-274 | indexing finds its element if and only if `_first + index` fits `size_type` |
| RingBuffer.IndexedCapacityExact | mcucpp/ring_buffer.h:266-274 | indexing finds every element of every buffer of a capacity if and only if the capacity is at most 128, from 256 to 32768, or from 65536 to 2^31 |
| RingBuffer.IndexedSlotFails | mcucpp/ring_buffer.h:266-274 | an index in a buffer of 200 for which it does not |
| RingBuffer.CounterTypeIsWide | mcucpp/select_size.h:51-62 | the counter type chosen for a power of two has a multiple of it, and at least twice as many, values |
| RingMachinePO2.FullIsExact | mcucpp/ring_buffer.h:161-166 | between two threads too, the test for a full buffer is right although the counters wrap |
| RingMachinePO2.EmptyIsExact | mcucpp/ring_buffer.h:155-159 | so is the test for an empty one |
| RingMachinePO2.NoOverwrite | mcucpp/ring_buffer.h:89-91 | the slot about to be filled holds no unread value |
| RingMachinePO2.ProduceKeepsInv | mcucpp/ring_buffer.h:86-93 | storing before stepping the counter, every access of `push_back` keeps the invariant of counters, slots and histories |
| RingMachinePO2.ConsumeKeepsInv | mcucpp/ring_buffer.h:104-132 | every access of `front` and `pop_front` keeps it |
| RingMachinePO2.RunKeepsInv | mcucpp/ring_buffer.h:86-132 | every interleaving keeps it |
| RingMachinePO2.FirstInFirstOut | mcucpp/ring_buffer.h:86-132 | for every capacity, storing before stepping: in every interleaving what is read is a prefix of what was pushed, no unread slot is overwritten, and a read finds the next value |
| RingMachinePO2.PushFinishes | mcucpp/ring_buffer.h:86-93 | a `push_back` in progress ends with its remaining accesses, in every interleaving, with its value appended |
| RingMachinePO2.PushCompletes | mcucpp/ring_buffer.h:86-93 | a `push_back` that finds room completes and appends its value in every interleaving; on a full buffer it changes nothing |
| RingMachinePO2.PopFinishes | mcucpp/ring_buffer.h:104-132 | a pop in progress ends with its remaining accesses, in every interleaving, and reads at most one value |
| RingMachinePO2.PopCompletes | mcucpp/ring_buffer.h:104-132 | a pop from a non-empty buffer completes and delivers the oldest unread value in every interleaving; on an empty one it changes nothing |
| RingMachinePO2.EarlyStepFails | mcucpp/ring_buffer.h:91 | stepping before storing, an order the source does not exclude: a schedule that reads a slot before the value arrives there |
| RingBuffer.RingBufferPO2.Counters | mcucpp/ring_buffer.h:56-58 | the wrapped counters determine the abstract queue: equal exactly when it is empty, their wrapped difference is its length, masking gives the slot |
| RingBuffer.RingBufferPO2.BackIndex | mcucpp/ring_buffer.h:120-125 | one below the write counter, masked, is the newest value's slot, also when the counter has wrapped to zero |
| RingBuffer.RingBufferPO2.constructor | mcucpp/ring_buffer.h:80-84 | a new buffer is empty |
| RingBuffer.RingBufferPO2.Empty | mcucpp/ring_buffer.h:155-159 | true exactly when the abstract queue is empty |
| RingBuffer.RingBufferPO2.Full | mcucpp/ring_buffer.h:161-166 | true exactly when it holds the capacity |
| RingBuffer.RingBufferPO2.Size | mcucpp/ring_buffer.h:168-172 | its length |
| RingBuffer.RingBufferPO2.PushBack | mcucpp/ring_buffer.h:86-93 | appends, or refuses exactly when full; the history of pushes grows by the value |
| RingBuffer.RingBufferPO2.PopFront | mcucpp/ring_buffer.h:104-111 | drops the oldest value, or refuses exactly when empty |
| RingBuffer.RingBufferPO2.Front | mcucpp/ring_buffer.h:127-132 | the oldest value |
| RingBuffer.RingBufferPO2.Back | mcucpp/ring_buffer.h:134-139 | the newest value |
| RingBuffer.RingBufferPO2.At | mcucpp/ring_buffer.h:141-146 | the i-th value of the queue |
| BufferedOutput.PopDelivers | mcucpp/buffered_output.h:78-79 | `front` and `pop_front` inside the handler deliver the oldest unread byte |
| BufferedOutput.WriterKeepsInv | mcucpp/buffered_output.h:53-66 | every access of `Write` keeps the invariant: wire and bytes in flight are the bytes in call order |
| BufferedOutput.HandlerKeepsInv | mcucpp/buffered_output.h:68-81 | the interrupt handler keeps it |
| BufferedOutput.NextKeepsInv | mcucpp/buffered_output.h:53-81 | every possible event keeps it |
| BufferedOutput.RunKeepsInv | mcucpp/buffered_output.h:53-81 | every run keeps it |
| BufferedOutput.WireInCallOrder | mcucpp/buffered_output.h:53-81 | in every run the wire followed by what is in flight is the sequence of written bytes, and a waiting writer has the interrupt enabled |
| BufferedOutput.NoDeadlock | mcucpp/buffered_output.h:62-64 | from every state where `Write` spins on a full buffer, at most one transmission and one interrupt make room |
| BufferedOutput.OnwardIsNearer | mcucpp/buffered_output.h:53-81 | in every state of a running `Write` some event other than a call is possible and brings it nearer to its end |
| BufferedOutput.WriteCompletes | mcucpp/buffered_output.h:53-81 | from every state of a running `Write` there are events, each possible in its turn and none another call, after which it is done |
| BufferedOutput.FirstByte | mcucpp/buffered_output.h:53-81 | the first `Write` on an idle device: the handler turns the interrupt off, and the byte is on the wire after one transmission |
| BufferedOutput.DeliveredExactly | mcucpp/buffered_output.h:68-81 | after a `Write` the device and the handler bring everything written to the wire if and only if the interrupt is enabled or the buffer is empty |
| BufferedOutput.BufferedWrite | mcucpp/buffered_output.h:53-66 | an undisturbed `Write` while the device is busy and there is room ends with the byte in the buffer and the interrupt enabled, and everything written then reaches the wire |
| BufferedOutput.Drains | mcucpp/buffered_output.h:68-81 | with the interrupt enabled, or nothing buffered, they do |
| BufferedOutput.Stranded | mcucpp/buffered_output.h:68-81 | with the interrupt off and something buffered they do not, whatever they do |
| BufferedOutput.ByteLeftBehind | mcucpp/buffered_output.h:53-81 | two calls of `Write` after which the second byte is in the buffer with the interrupt off |
| Servo.NextUnique | mcucpp/drivers/servo.h:143-146 | the next edge is determined by the positions and the phase |
| Servo.AheadShrinks | mcucpp/drivers/servo.h:138-166 | one handler call leaves one distinct position fewer ahead |
| Servo.FrameLength | mcucpp/drivers/servo.h:131-169 | a frame takes one handler call for each distinct nonzero position, and one for the pause |
| Servo.FramePulse | mcucpp/drivers/servo.h:131-169 | in a frame each channel is high for exactly its position in ticks, first and without interruption |
| Servo.HandleFrame | mcucpp/drivers/servo.h:131-169 | a handler call plays the first slice of the frame and leaves the others, or the next frame |
| Servo.OutputIsFrames | mcucpp/drivers/servo.h:69-178 | over every run of handler calls, position changes, stops and new timings the output is whole frames, each fixed by the positions cached when the last one ended, with the timings in force at each call |
| Servo.IdealUndisturbed | mcucpp/drivers/servo.h:131-178 | what is left of a frame follows from the positions at its start, but for the timings |
| Servo.FrameUndisturbed | mcucpp/drivers/servo.h:131-178 | within a frame the driver puts out the frame, whatever is set meanwhile; dividers and the pause are those in force at each call |
| Servo.Driver.constructor | mcucpp/drivers/servo.h:53-67 | all positions start at zero, the pause at the longest the timer has |
| Servo.Driver.MinTicks | mcucpp/drivers/servo.h:109-110 | the shortest pulse is its share of the longest when it is not above it and the product fits 32 bits |
| Servo.Driver.UpdateTimings | mcucpp/drivers/servo.h:100-123 | the longest pulse and the pause get the finest divider that fits, the shortest pulse is its share under the same conditions; every cached position becomes zero; it is the event of new timings, so all channels stop after the running frame |
| Servo.Driver.StopAll | mcucpp/drivers/servo.h:91-98 | every cached position becomes zero; it is the event that stops all channels after the running frame |
| Servo.Driver.PositionToTimer | mcucpp/drivers/servo.h:125-129 | maps the lower end of the positions to the shortest pulse; when that is not above the longest, every position into the pulse range, and the upper end to the longest exactly when its product fits 32 bits |
| Servo.Driver.PositionShare | mcucpp/drivers/servo.h:125-129 | when the shortest pulse is not above the longest and the product fits 32 bits, a pulse exceeds the shortest by the position's exact share of the range, rounded down; otherwise the same holds modulo 2^32 |
| Servo.Driver.PositionsOrdered | mcucpp/drivers/servo.h:125-129 | positions further along give pulses at least as long, as far as the product fits 32 bits |
| Servo.Driver.SetPosition | mcucpp/drivers/servo.h:69-80 | stays inside the array exactly when the channel is not negative, and then sets only that channel's cached position, to the clamped value in ticks, and nothing for a channel past the end |
| Servo.Driver.Stop | mcucpp/drivers/servo.h:82-89 | stays inside the array exactly when the channel is not negative, and then sets only that channel's cached position to zero |
| Servo.Driver.SyncCache | mcucpp/drivers/servo.h:171-178 | the positions become the cached ones |
| Servo.Driver.Scan | mcucpp/drivers/servo.h:135-150 | the port word has a bit per channel ahead of the phase, and `next` is the nearest position ahead |
| Servo.Driver.TimerHandler | mcucpp/drivers/servo.h:131-169 | one handler call is one slice of the frame: a bit per channel ahead; while there is one, the ticks to the nearest position with the pulse divider; otherwise the pause with its own divider, and the cached positions are taken over |
| DividerSelector.Timer.TicksFall | mcucpp/DividerSelector.h:74-75 | a coarser divider never has more ticks |
| DividerSelector.Timer.SelectsUnique | mcucpp/DividerSelector.h:56-99 | the selection is determined by the period |
| DividerSelector.Timer.SelectsMeans | mcucpp/DividerSelector.h:56-99 | the selection by ticks of 32 bits is the one by frequency times period: the counter covers it in whole ticks and no finer divider can |
| DividerSelector.TicksAtLeast | mcucpp/DividerSelector.h:58-75 | dividing first by a million and then by the divider loses nothing against one division |
| DividerSelector.Selector.ProcessMkSek | mcucpp/DividerSelector.h:56-99 | the binary search ends within its 32 rounds at the finest divider whose counter covers frequency times period, with the whole ticks in it, or at the coarsest one with a full counter when none does |
| FreeTree.ShapeFrame | mcucpp/allocators/btree_alloc.h:46-55 | links of blocks outside a tree do not matter to it |
| FreeTree.InsertAdds | mcucpp/allocators/btree_alloc.h:98-128 | insertion adds exactly the block and keeps the search order |
| FreeTree.HangInserts | mcucpp/allocators/btree_alloc.h:103-126 | setting the free link at the end of the search path is insertion |
| FreeTree.InsertNode | mcucpp/allocators/btree_alloc.h:98-128 | the links then have the shape of the tree with the block inserted; an empty tree is left alone |
| FreeTree.RemoveKeeps | mcucpp/allocators/btree_alloc.h:57-96 | removal takes away exactly the block and keeps the search order |
| FreeTree.UnlinkRemoves | mcucpp/allocators/btree_alloc.h:59-79 | assigning the parent's link and the left child's right link is removal |
| FreeTree.CellInTree | mcucpp/allocators/btree_alloc.h:57 | the link that points at a block belongs to a block above it, or is the root variable |
| FreeTree.ReplaceByChild | mcucpp/allocators/btree_alloc.h:59-70 | with at most one child, the parent's link becomes that child |
| FreeTree.JoinChildren | mcucpp/allocators/btree_alloc.h:71-93 | with two children, completes exactly when the left child has no right child, and then joins the two |
| FreeTree.LastMore | mcucpp/allocators/btree_alloc.h:82-86 | the descent to the right ends, at a block without right child |
| FreeTree.RemovableLinks | mcucpp/allocators/btree_alloc.h:59-79 | the condition for completing, as a caller can read it off the links |
| FreeTree.DeletionFails | mcucpp/allocators/btree_alloc.h:80-92 | an ordered tree whose root the deletion cannot handle |
| FreeTree.DeleteNode | mcucpp/allocators/btree_alloc.h:57-96 | completes if and only if a child is missing or the left child has no right child, and then has removed exactly the block; otherwise the link that pointed at the block is already null when the code follows the null link |
| Crc.StepsLinear | mcucpp/crc.h:45-47 | the bit steps are linear over exclusive or |
| Crc.StepsInjective | mcucpp/crc.h:45-47 | any number of bit steps is a bijection of the register |
| Crc.StepsMirror | mcucpp/crc.h:43-54 | left steps are the mirror of right steps with the mirrored polynomial |
| Crc.CrcTable | mcucpp/crc.h:37-57 | the table loop makes eight bit steps in the class's direction |
| Crc.CrcUpdate | mcucpp/crc.h:264-278 | the update reads the table at the right byte of the register |
| Crc.ComputeCrc | mcucpp/crc.h:280-291 | the loop updates byte by byte and applies the final exclusive or |
| Crc.ClassesValid | mcucpp/crc.h:59-261 | all shipped classes have a polynomial of their width with its lowest bit set, and equal RefIn and RefOut |
| Crc.UpdateRight | mcucpp/crc.h:271 | a byte update of a reflected class is eight bit-serial steps |
| Crc.UpdateLeft | mcucpp/crc.h:276 | a byte update of an unreflected class is the mirror of eight bit-serial steps |
| Crc.RegisterIsSerialRight | mcucpp/crc.h:264-291 | over any message a reflected register is the LSB-first bit-serial register |
| Crc.RegisterIsSerialLeft | mcucpp/crc.h:264-291 | over any message an unreflected register is the MSB-first bit-serial register |
| Crc.RegisterIsMirror | mcucpp/crc.h:264-291 | an unreflected register is the mirror of the LSB-first one on mirrored bytes |
| Crc.MirroredClass | mcucpp/crc.h:264-291 | the reflected class on mirrored bytes gives the bit-mirror of the unreflected class |
| Crc.Chaining | mcucpp/crc.h:280-291 | the CRC of a concatenation continues from the CRC of its first part before the final exclusive or |
| Crc.SerialRightIsBits | mcucpp/crc.h:264-291 | adding a byte at once and shifting it through is adding its bits one by one |
| Crc.RegisterIsBits | mcucpp/crc.h:264-291 | in every class the register is the bit-serial one over the transmitted bits, mirrored for unreflected classes |
| Crc.TransmittedInjective | mcucpp/crc.h:264-291 | the transmitted bits determine the message |
| Crc.WindowInjective | mcucpp/crc.h:264-291 | two bit windows no longer than the register that lead to the same result are equal |
| Crc.SerialDetects | mcucpp/crc.h:264-291 | a difference in a window of as many bits as the register has survives any common prefix and suffix |
| Crc.BurstDetected | mcucpp/crc.h:264-291 | messages of any length that differ only within width consecutive transmitted bits, starting at any bit, have different CRCs, in every class |
| Crc.ByteWindowDetected | mcucpp/crc.h:264-291 | in particular a difference within width/8 consecutive bytes |
| Crc.Crc32Polynomial | mcucpp/crc.h:231-245 | the mirrored polynomial of `Crc32` is 0xEDB88320 |
| Crc.Crc32IsGzip | mcucpp/crc.h:231-245 | `Crc32` is the CRC of section 8 of RFC 1952 on every message |
| CrcCheck.Crc16Check | mcucpp/crc.h:59-73 | the class's CRC of its check message is its check value 0xBB3D |
| CrcCheck.Crc16ModbusCheck | mcucpp/crc.h:129-143 | the same with 0x4B37, for the table the class uses |
| CrcCheck.Crc16CittCheck | mcucpp/crc.h:199-213 | the same with 0x29B1 |
| CrcCheck.XModemCrcCheck | mcucpp/crc.h:215-229 | the same with 0x31C3 |
| CrcCheck.Crc32Check | mcucpp/crc.h:231-245 | the same with 0xCBF43926 |
| CrcCheck.DallasCrcCheck | mcucpp/crc.h:247-261 | the same with 0xA1 |
| Utf8.EncodeBytes | mcucpp/utf8.h:148-167 | the encoding has `EncodedLen` bytes |
| Utf8.Encode | mcucpp/utf8.h:109-146 | writes exactly the encoding at the cursor and moves behind it |
| Utf8.DecodeAt | mcucpp/utf8.h:57-107 | on any bytes that end with a NUL takes one to four bytes, and a NUL only when it starts there |
| Utf8.Decode | mcucpp/utf8.h:57-107 | the loop returns what the byte-wise definition says, with the cursor |
| Utf8.DecodeRanges | mcucpp/utf8.h:57-107 | by ranges of byte values, what any bytes decode to: the code point and the bytes taken, or the error mark and the bytes skipped |
| Utf8.LeadRanges | mcucpp/utf8.h:64-90 | the masks and the rejected values are ranges of leading bytes, each with its number of subsequent bytes and its own bits |
| Utf8.LeadIs | mcucpp/utf8.h:64-90 | a leading byte announces the encoded length, carries the top bits, and is rejected exactly above 0x13FFFF |
| Utf8.DecodeEncoded | mcucpp/utf8.h:57-146 | for all code points 0..0x13FFFF decoding undoes encoding, anywhere in a string |
| Utf8.RoundTripExact | mcucpp/utf8.h:57-146 | it does so if and only if the code point is at most 0x13FFFF |
| Utf8.Skip | mcucpp/utf8.h:203-211 | no NUL is skipped |
| Utf8.StrLen | mcucpp/utf8.h:169-214 | counts code points up to the first NUL or the first misplaced byte, never stepping past a NUL |
| Utf8.StrLenRanges | mcucpp/utf8.h:169-214 | by ranges of byte values, what is counted: a code point cut short is the last one, a byte no code point starts with ends the count |
| Utf8.LengthIsCount | mcucpp/utf8.h:169-214 | the length of encoded code points is their number before the first 0 |
| Utf8.StringRoundTrip | mcucpp/utf8.h:57-214 | decoding the concatenated encodings of 0..0x13FFFF returns the sequence, and the length is its length up to the first 0 |
| Utf8.EncodedHasNoNul | mcucpp/utf8.h:109-146 | encodings of other code points than 0 contain no NUL |
| Dispatcher.ArmedSlots | mcucpp/dispatcher.h:55-63 | the map of running timers holds exactly what the live slots hold |
| Dispatcher.ArmedSize | mcucpp/dispatcher.h:162-174 | there are as many timers as slots exactly when no slot is free |
| Dispatcher.NoSlotIs | mcucpp/dispatcher.h:162-198 | no slot is found exactly when the task has no timer and the table is full |
| Dispatcher.Reassign | mcucpp/dispatcher.h:175-197 | changing one slot that was free or held the task changes that task's timer only |
| Dispatcher.ChosenArms | mcucpp/dispatcher.h:162-197 | setting the chosen slot sets the timer of the task, or stops it for a period of zero |
| Dispatcher.IdsDiffer | mcucpp/dispatcher.h:189-195 | a running timer with a given id sits in the slot the id names |
| Dispatcher.SweptArms | mcucpp/dispatcher.h:261-273 | sweeping the table leaves exactly the timers that are not yet due |
| Dispatcher.DueIs | mcucpp/dispatcher.h:263-268 | the queued tasks are exactly those whose deadline has passed, each once |
| Dispatcher.DeadlineInForce | mcucpp/dispatcher.h:155-238 | over every run a running timer has the deadline that some call gave it and no later call changed |
| Dispatcher.NeverEarly | mcucpp/dispatcher.h:130-273 | over every run each acceptance of a task is made by the call that hands it in, or by a handler call at or after the deadline then in force |
| Dispatcher.DeadlineExact | mcucpp/dispatcher.h:186 | a firing meets the time asked for if and only if that time fits 32 bits |
| Dispatcher.WrappedDeadline | mcucpp/dispatcher.h:186 | a run in which a wrapped deadline fires after one tick instead of ten |
| Dispatcher.Bounded | mcucpp/dispatcher.h:130-142 | over every run the queue never exceeds its size |
| Dispatcher.TasksInOrder | mcucpp/dispatcher.h:130-273 | over every run the accepted tasks are the invoked ones followed by the waiting ones, in order |
| Dispatcher.NextId | mcucpp/dispatcher.h:189-195 | the low 24 bits are those of the sequence, or of its successor when they are zero, so they run through 1 to 2^24 - 1 cyclically; the slot is on top |
| Dispatcher.LowBitsRecur | mcucpp/dispatcher.h:189-193 | after 2^24 - 1 ids the low bits begin again |
| Dispatcher.IdsFresh | mcucpp/dispatcher.h:189-195 | over every run, of 2^24 - 1 ids in a row no two have the same low bits |
| Dispatcher.IdMeansTimer | mcucpp/dispatcher.h:155-238 | over every run, until 2^24 - 1 ids later a running timer with an id is the one it was given to and has kept it |
| Dispatcher.StaleId | mcucpp/dispatcher.h:221-238 | once its timer has fired, was stopped or was set again, an id stops and restarts no timer, until 2^24 - 1 ids later |
| Dispatcher.Dispatcher.constructor | mcucpp/dispatcher.h:89-100 | no tasks, no timers, no clock |
| Dispatcher.Dispatcher.SetTask | mcucpp/dispatcher.h:130-142 | appends, or refuses exactly when the queue is full |
| Dispatcher.Dispatcher.FindSlot | mcucpp/dispatcher.h:162-174 | the first slot holding the task, else the first free one, else none |
| Dispatcher.Dispatcher.SetTimer | mcucpp/dispatcher.h:155-199 | zero exactly without clock or slot; otherwise the task's timer is set or stopped, its id is no other timer's and has the next low bits of the sequence |
| Dispatcher.Dispatcher.StopTimer | mcucpp/dispatcher.h:207-219 | removes the task's timer and no other |
| Dispatcher.Dispatcher.StopTimerById | mcucpp/dispatcher.h:221-229 | stays inside the table exactly when the id names a slot, and then removes the timer with the id, if it still runs, and no other |
| Dispatcher.Dispatcher.RestartTimer | mcucpp/dispatcher.h:231-238 | is defined exactly when the id names a slot and the clock is set where it is read, and then moves the deadline of the timer with the id, if it still runs, and no other |
| Dispatcher.Dispatcher.TimerHandler | mcucpp/dispatcher.h:261-273 | leaves exactly the timers not yet due; the due tasks are queued in slot order, cut where the queue is full |
| Dispatcher.Dispatcher.Take | mcucpp/dispatcher.h:247-256 | the oldest waiting task, removed from the queue |
| Dispatcher.Dispatcher.Poll | mcucpp/dispatcher.h:240-259 | fires the due timers, then runs the oldest waiting task |
| MemPool.LowestClearIs | mcucpp/mempool.h:92 | the bit trick isolates the lowest clear bit, in every element type |
| MemPool.IsolatedPosition | mcucpp/mempool.h:92-94 | its position is that of a clear bit below which all bits are set |
| MemPool.BitPosition | mcucpp/mempool.h:93-94 | the shifting loop finds the position of the highest set bit |
| MemPool.StageKeepsSum | mcucpp/template_utils.h:247-255 | adding neighbouring fields keeps the sum of all fields |
| MemPool.PopulatedBits | mcucpp/template_utils.h:247-255 | the parallel sum is the number of set bits of any 32-bit word |
| MemPool.Populated16Is32 | mcucpp/template_utils.h:257-264 | the 16-bit version agrees with the 32-bit one on 16-bit words |
| MemPool.Marked | mcucpp/mempool.h:101 | setting a bit makes its block live and no other |
| MemPool.Unmarked | mcucpp/mempool.h:106-115 | clearing a bit frees its block and no other |
| MemPool.LowerLive | mcucpp/mempool.h:81-99 | every block below the found bit is live, the found one is not |
| MemPool.FullElements | mcucpp/mempool.h:81-90 | all blocks of busy elements are live |
| MemPool.BelowElement | mcucpp/mempool.h:65-71 | the set bits of one element count its live blocks |
| MemPool.Pool.constructor | mcucpp/mempool.h:50-53 | no block is live, no bit is set |
| MemPool.Pool.FreeAll | mcucpp/mempool.h:127-131 | no block is live, no bit is set |
| MemPool.Pool.Alloc | mcucpp/mempool.h:73-104 | the lowest block that is not live becomes live; null exactly when all are live; bits beyond the last block stay clear |
| MemPool.ExchangeClaims | mcucpp/mempool.h:91-101 | whenever the exchange succeeds, the claimed block is free at that moment and becomes live, however often the element changed since it was read |
| MemPool.Pool.AddressBlock | mcucpp/mempool.h:106-125 | the computed index is that of the block that starts at an address |
| MemPool.Pool.Free | mcucpp/mempool.h:106-125 | is defined exactly for addresses outside the pool and multiples of the block size; then the block that starts there is no longer live and no other changes, and addresses outside the pool and just past it change nothing |
| MemPool.Pool.UsedBlocks | mcucpp/mempool.h:65-71 | the number of live blocks |
| Encoder.DetectBit | mcucpp/drivers/Encoder.h:81-85 | a bit is detected exactly when the second pin repeats the first's old value and the first left the second's |
| Encoder.DetectIsCount | mcucpp/drivers/Encoder.h:55-56 | forward minus backward detection is the step between two phases of the cycle |
| Encoder.CountExact | mcucpp/drivers/Encoder.h:81-85 | a movement is counted right if and only if it is at most one phase |
| Encoder.CounterTracks | mcucpp/drivers/Encoder.h:50-74 | for one channel, over every run with at most one phase per capture the counter is start plus net displacement modulo its range, and the displacement matches the phase |
| Encoder.AllChannelsTrack | mcucpp/drivers/Encoder.h:50-74 | over every run of captures of the object, with such a shaft for each channel, every counter is its start plus the net displacement of its shaft modulo the range |
| Encoder.RunCounts | mcucpp/drivers/Encoder.h:50-74 | each counter of the object follows the recurrence of its own channel, whatever the others do |
| Encoder.DoubleStepLost | mcucpp/drivers/Encoder.h:50-74 | two phases in one capture count nothing |
| Encoder.Encoder.constructor | mcucpp/drivers/Encoder.h:87-98 | counters and remembered pins start at zero |
| Encoder.Encoder.CaptureHandler | mcucpp/drivers/Encoder.h:50-74 | one capture: every channel's counter moves by its step between the phases, modulo its range; the pins are remembered |

## Left out

- DividerSelector.Selector.ProcessMkSek: the time base is the 64-bit one; the shorter formula for 8-bit controllers is not modelled.
- Servo.Driver.UpdateTimings: the pin configuration at its end is not modelled; a longest pulse of zero is a division by zero in the code and excluded; the timer's data type is taken to hold exactly `0 .. MaxValue`, and it is not interrupted by the handler half-way.
- Servo.Driver.SetPosition: what a write before the array destroys is not described; the same holds for stopping.
- MemPool.Pool.Free: what an address inside a block frees is not described.
- Dispatcher.Dispatcher.StopTimerById: what a read past the table yields is not described; the same holds for restarting.
- Dispatcher.Dispatcher.Poll: the task is returned instead of being called, and everything runs in one thread; a handler in an interrupt that reuses the slot `Poll` still refers to is not modelled.
- MemPool.Pool.Alloc: one thread, as with the default `VoidAtomic`, so the exchange does not fail; of concurrent calls only the successful exchange is described, by `ExchangeClaims`.
- RingMachine.FirstInFirstOut: `clear()` is not part of the interleaving, nor in `RingMachinePO2`.
- BufferedOutput.WireInCallOrder: the interrupt is taken as soon as it is enabled and the register is empty; there is no timeout; while the interrupt is enabled the handler may also be called with the register full.
- RingBuffer.RingBuffer.Front: `back()` of the plain buffer reads index -1 when `_last` is zero and is not modelled; nor is `clear()` of either buffer.
- KS0108.Display.DrawBitmap: the two controllers behave as their data sheet says, including the dummy read; delays, busy flags, `Init`, `Fill` and `PutPixel` are not modelled.
- FreeTree.DeleteNode: what happens when the null link is followed is not described, only the links at that moment.
- Div.Div64x32s: signed negation and shifts that C++ leaves undefined or implementation-defined are two's complement wrap-around.
- Mul32.Mul32hu: only the byte-wise branch; the other one is the built-in product.
- Div.CountLeadingZeros: only the portable branch, and only for 32 bits.
- Utf8.Decode: strings are bytes that end with a NUL; other iterators are not modelled.
- StringUtil.StringToIntDec: strings are NUL-terminated; a cursor without terminator is not modelled.
- Crc.CrcTable: the literal 256-entry tables are not compared with it.
- Encoder.Encoder.CaptureHandler: port words have up to 32 bits, and a counter type of 2^w values is the residue modulo 2^w, so a signed type is modelled by its unsigned twin.
- The heap allocators, fixed-point numbers, Modbus, formatted output and the non-volatile storage, whose hard parts are in files without a body or need no more than the members above.
- Register and pin wrappers, timers, serial interfaces, converters, power, startup code, vector tables, build scripts and examples: input and output without an algorithm.
