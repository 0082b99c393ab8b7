# RLM3 log ring and debug-console drain, modelled in Dafny

This project models the shared-memory logging core of the RLM3 communication
firmware. Both interrupt and task code append text to one ring of C bytes. The
ring lives in external memory that survives a warm reset. A timer interrupt
drains the ring to the debug console one character at a time.

- `word32.dfy` (`Word32`): the 32-bit unsigned counters (`uint32_t`, and
  `size_t` on the target). Wrap-around is written out as `Add` and `Sub`. The
  facts about `counter % C` hold because the capacity C divides 2^32, so a
  cell index does not jump when a counter wraps.
- `ring.dfy` (`Ring`): the character sink `FormatToBufferFn`. `Fill` is the
  formatter streaming a line through that sink. `RingWrite` and `RingRead`
  are closed-form reference views of the ring.
- `log_buffer.dfy` (`LogBuffer`): the external memory region, init validation
  and the lifecycle, and the reservation (`BeginOutputToBuffer`) and release
  (`EndOutputToBuffer`) steps. Also the two line writers, `WriteLogMessage`
  and `WriteRawMessage`.
- `fw_communication.dfy` (`FwCommunication`): the timer callback
  `RLM3_Timer2_Event_Callback` as one drain step, runs of drain steps, and
  the drain cursor seeded in `RLM3_FwCommunication_Init`.
- `interleaving.dfy` (`Interleaving`): any preemption pattern of writers is a
  sequence of atomic events. A writer reserves its line, puts its characters
  one at a time, and releases. The consumer advances the tail over published
  data. One invariant covers capacity, slice order and disjointness, the
  slices tiling the allocated span, publication and content, and every
  event keeps it.

Each operation is a pure function from state to state. A firmware `ASSERT` in
a public entry point (double init, deinit without init, memory not
initialised) is the outcome `AssertionFailure`. The `ASSERT` in the private
release helper is a precondition.

## Model

| member | source | states |
|---|---|---|
| `Word32.Add` | source/main/rlm3-log-buffer.c:65 | unsigned counter addition: the exact sum below 2^32, the sum minus 2^32 above it |
| `Word32.Sub` | source/main/rlm3-log-buffer.c:60 | unsigned counter difference: the forward distance from `b` to `a`, `a - b` or `a - b + 2^32` |
| `Word32.CellOfAdd` | source/main/rlm3-log-buffer.c:28 | a wrapped cursor addresses the same ring cell as the unwrapped one, when C divides 2^32 |
| `Ring.PutChar` | source/main/rlm3-log-buffer.c:25-29 | the sink writes only the cell `cursor % C`, leaves every other cell alone, and advances the cursor by exactly one |
| `Ring.Fill` | source/main/rlm3-log-buffer.c:160-162 | streaming a line keeps the buffer length and leaves the cursor `|line|` past the start, mod 2^32 |
| `Ring.FillIsRingWrite` | source/main/rlm3-log-buffer.c:28 | streaming a line of at most C characters equals the closed-form write: cell at distance `d < |line|` from the start holds `line[d]`, all others unchanged |
| `Ring.ReadAfterWrite` | source/main/rlm3-log-buffer.c:28 | reading `|line|` cells from the write's start gives back exactly the line |
| `Ring.ReadAroundWrite` | source/main/rlm3-log-buffer.c:157-163 | a write into its own slice leaves unchanged every cell of a disjoint window that fits with it in one ring |
| `Ring.ReadBehindWrite` | source/main/rlm3-log-buffer.c:157-163 | a write at the allocation head leaves the window from the tail up to that head reading exactly as before, wrap-around of the 32-bit counters included |
| `LogBuffer.Init` | source/main/rlm3-log-buffer.c:85-112 | fatal iff memory is uninitialised or the module is already initialised. Otherwise: initialised, magic `LOGM`, head/tail kept iff the magic was right and `head - tail <= C` (boundary included), else both 0. Allocation head seeded from head, buffer untouched. A `FOUL` fault record is cleared with the last byte of both fault strings forced to NUL |
| `LogBuffer.Deinit` | source/main/rlm3-log-buffer.c:114-121 | fatal iff not initialised; otherwise only the flag drops and the region persists |
| `LogBuffer.IsInit` | source/main/rlm3-log-buffer.c:123-126 | true exactly when a deinit is allowed, and then a further init is fatal |
| `LogBuffer.Lifecycle` | source/main/rlm3-log-buffer.c:85-126 | `IsInit` is true after init and false after deinit. A second init and a deinit before init are fatal. A warm restart (deinit, init) finds head, tail, buffer and allocation head as validated |
| `LogBuffer.Reserve` | source/main/rlm3-log-buffer.c:54-71 | with the allocated span within C: granted iff `span + size <= C`. A grant returns the old allocation head, advances it by `size`, counts one more writer and keeps the span within C. A refusal changes nothing |
| `LogBuffer.Release` | source/main/rlm3-log-buffer.c:73-83 | needs a writer in flight. It decrements the count and sets head to the allocation head exactly when the count reaches zero, leaving everything else alone |
| `LogBuffer.ReserveKeepsConsistent` | source/main/rlm3-log-buffer.c:54-71 | a reservation keeps tail <= head <= allocation head within C, and with no writer in flight head equals allocation head |
| `LogBuffer.ReleaseKeepsConsistent` | source/main/rlm3-log-buffer.c:73-83 | a release keeps the same cursor ordering |
| `LogBuffer.ReserveAdjacent` | source/main/rlm3-log-buffer.c:58-70 | two grants in a row, tail unchanged, get adjacent slices in call order. The second starts where the first ends, and both fit in the ring together |
| `LogBuffer.SlicesDisjoint` | source/main/rlm3-log-buffer.c:63-65 | adjacent slices that fit in the ring together occupy disjoint cells |
| `LogBuffer.WriteLine` | source/main/rlm3-log-buffer.c:155-164 | a line that fits lands exactly in the cells past the allocation head (ring write, reads back as the line). The allocation head moves past it and the writer count comes back to its old value. It is published iff no other writer is in flight, otherwise head stays. Tail, magic and fault record are untouched. A line that does not fit is dropped whole with no partial write |
| `LogBuffer.WriteLineKeepsAllocated` | source/main/rlm3-log-buffer.c:157-164 | a write that fits leaves every cell from the tail up to the old allocation head, published or still being filled by an interrupted writer, reading as before |
| `LogBuffer.Decimal` | source/main/rlm3-log-buffer.c:147 | the `%u` rendering of the tick: non-empty decimal digits without a leading zero |
| `LogBuffer.DecimalRoundTrip` | source/main/rlm3-log-buffer.c:160 | the rendered tick reads back as the tick |
| `LogBuffer.HeaderFields` | source/main/rlm3-log-buffer.c:147 | the header `"L %u %s %s "` has the tag `"L "`, the rendered tick, the level and the zone at their offsets, each followed by one space, and is 5 characters longer than its fields |
| `LogBuffer.LogLineFields` | source/main/rlm3-log-buffer.c:160-162 | a log line splits back into the header, the body and one final line feed, so its length is header + body + 1 as measured at line 149 |
| `LogBuffer.RawLine` | source/main/rlm3-log-buffer.c:197-198 | a raw line is the body followed by exactly one line feed, one character longer than the body |
| `LogBuffer.WriteLogMessage` | source/main/rlm3-log-buffer.c:128-168 | before init the ring is untouched and `"L 0 <level> <zone> <body>\n"` goes to the debug port. After init it reserves header+body+1 bytes and writes `"L <tick> <level> <zone> " + body + "\n"` there, or drops the line whole when it does not fit. A written line leaves the writer count, tail, magic and fault record as they were, and moves head only when no other writer is in flight |
| `LogBuffer.WriteRawMessage` | source/main/rlm3-log-buffer.c:170-204 | the same for raw lines: body+1 bytes holding `body + "\n"`, or `body + "\n"` straight to the debug port before init, with the same frame and publication rule |
| `LogBuffer.WriteLogMessageExample` | source/test-cpu/rlm3-log-buffer-tests.cpp:80-94 | on fresh memory at tick 30 the buffer starts with `"L 30 test-level test-zone test-message ACE\n"`, head is 43 and tail 0 |
| `LogBuffer.WriteRawMessageExample` | source/test-cpu/rlm3-log-buffer-tests.cpp:119-133 | on fresh memory the buffer starts with `"test-message ACE\n"` and head is 17 |
| `FwCommunication.Resynced` | source/main/rlm3-fw-communication.c:16-19 | the drain cursor is kept iff `cursor - tail <= C`, otherwise reset to the tail; either way it ends within C of the tail |
| `FwCommunication.DrainStep` | source/main/rlm3-fw-communication.c:13-27 | never changes the log state. It offers a character iff head differs from the resynced cursor, and the character offered is the cell of that cursor. The cursor advances by exactly one iff the port accepted, otherwise it stays at the resynced value |
| `FwCommunication.DrainStepKeepsBehind` | source/main/rlm3-fw-communication.c:16-25 | a tick leaves the drain cursor between tail and head, if it was there or had fallen out of the window |
| `FwCommunication.DrainEmpty` | source/test-cpu/rlm3-fw-communication-tests.cpp:28-40 | with head, tail and cursor equal, a tick offers nothing and changes nothing |
| `FwCommunication.DrainRun` | source/main/rlm3-fw-communication.c:13-27 | a run of ticks never changes the log state and prints at most one character per tick |
| `FwCommunication.DrainRunReads` | source/main/rlm3-fw-communication.c:21-25 | from a cursor between tail and head, with the published span within C, any run of ticks prints exactly the next `min(accepted ticks, head - cursor)` ring characters from the cursor, in order, and leaves the cursor that far ahead; draining stops at head |
| `FwCommunication.FwInit` | source/main/rlm3-fw-communication.c:29-42 | the log-buffer init, then, with a debugger attached, the drain cursor set to the tail as validated by that init |
| `FwCommunication.FwDeinit` | source/main/rlm3-fw-communication.c:44-50 | the log-buffer deinit; the region and the drain cursor persist |
| `FwCommunication.WriteThenDrain` | source/main/rlm3-fw-communication.c:21-25 | with the console caught up and no writer in flight, a log line that fits is exactly what enough accepted ticks print, and the cursor ends at the new head |
| `FwCommunication.DrainStopsAtHead` | source/test-cpu/rlm3-fw-communication-tests.cpp:42-56 | with head one past tail, two accepting ticks print the one character at the tail, and later ticks print nothing |
| `FwCommunication.SendOneExample` | source/test-cpu/rlm3-fw-communication-tests.cpp:42-56 | the ring holding `"a"` at tail `0x12345678`: two ticks print `"a"` |
| `FwCommunication.DrainAfterSkip` | source/main/rlm3-fw-communication.c:16-25 | once the tail has passed the cursor, a tick restarts at the tail and sends the tail's character |
| `FwCommunication.SkipOneExample` | source/test-cpu/rlm3-fw-communication-tests.cpp:58-74 | the ring holding `"ab"` with the tail then moved past `'a'`: two ticks print `"b"` only |
| `Interleaving.Step` | source/main/rlm3-log-buffer.c:54-83 | one atomic event: a reservation, a put, a release or a consumer step. It never moves the run's base, never moves the tail back, never touches the magic, the fault record or the initialised flag, and adds at most one writer |
| `Interleaving.Run` | source/main/rlm3-log-buffer.c:54-83 | a sequence of events keeps the same frame and adds at most one writer per event |
| `Interleaving.RunProgresses` | source/main/rlm3-log-buffer.c:157-163 | across any run every granted writer keeps its slice, its count of characters put never falls, and a release is never undone |
| `Interleaving.InitEstablishes` | source/main/rlm3-log-buffer.c:94-101 | the state right after init, with no writer and the run based at the validated head, satisfies the interleaving invariant |
| `Interleaving.InFlightBound` | source/main/rlm3-log-buffer.c:66 | disjoint non-empty slices in flight within a span number at most the span's length, so the writer count never wraps |
| `Interleaving.PutEffect` | source/main/rlm3-log-buffer.c:28 | a writer's put changes only the cell of its next stream position, to its next character |
| `Interleaving.PutCellFree` | source/main/rlm3-log-buffer.c:28 | that cell holds no character another writer put and the consumer has not yet read |
| `Interleaving.BeginKeepsInv` | source/main/rlm3-log-buffer.c:54-71 | a reservation keeps the invariant; the new slice starts at the allocation head, past every earlier slice |
| `Interleaving.PutKeepsInv` | source/main/rlm3-log-buffer.c:25-29 | a put keeps the invariant: no other writer's unconsumed characters are overwritten |
| `Interleaving.EndKeepsInv` | source/main/rlm3-log-buffer.c:73-83 | a release keeps the invariant: head jumps only when no writer is left in flight |
| `Interleaving.ConsumeKeepsInv` | source/main/rlm3-log-buffer.c:60 | the consumer advancing the tail over published data keeps the invariant |
| `Interleaving.StepKeepsInv` | source/main/rlm3-log-buffer.c:54-83 | every atomic event keeps the invariant, and head either stays or becomes the allocation head |
| `Interleaving.RunKeepsInv` | source/main/rlm3-log-buffer.c:54-83 | after any interleaving the allocated span is within C, slices are in call order, disjoint and abut from the run's base to the allocation head, and with no writer in flight head equals the allocation head |
| `Interleaving.HeadIsSomeAllocationHead` | source/main/rlm3-log-buffer.c:80-81 | after any interleaving head is its starting value or the allocation head at some earlier point of the run |
| `Interleaving.PublishedIsWritten` | source/main/rlm3-log-buffer.c:73-83 | no reader sees an unwritten byte: every published, unconsumed byte allocated during the run lies in the slice of some writer, that writer has released, and the cell holds its character. The slices tile the allocated span without gaps |

## Left out

- Mutex, critical sections and interrupt detection (`g_lock`, `EnterCritical`, `ExitCritical`, `RLM3_IsIRQ`): each reservation and each release is one atomic step. Preemption is modelled as arbitrary event sequences in `Interleaving`.
- The printf-style formatter (`RLM3_FnFormat`, `RLM3_FnVFormat`, `RLM3_FormatNoNul`, `RLM3_VFormatNoNul`) is code outside this model. The rendered body is an input string. The measuring pass is taken to give the length of the writing pass. Only the `%u` rendering of the tick is modelled, by `Decimal`.
- The tick clock, `RLM3_MEMORY_IsInit`, `RLM3_IsDebugOutput` and the answer of `RLM3_DebugOutputFromISR` are inputs to the functions, not modelled devices.
- The direct debug-port path before init is modelled as the text it would print. The port's character-level behaviour is not modelled.
- The `LOG_FATAL` fault report in init is not modelled. At that point the module is not yet initialised, so the report does not enter the ring. The unused `g_debug_output_cursor` is also left out.
- The variadic wrappers `RLM3_LogBuffer_FormatLogMessage` and `RLM3_LogBuffer_FormatRawMessage` only pack arguments, so they are left out. So are the timer set-up and tear-down calls.
- The build's buffer size (in `rlm3-settings.h`, which is not part of this model) is a parameter C. It is assumed to divide 2^32, as a power-of-two size does.
- This code has no overflow latch with half-capacity recovery, no single-character debug-channel writer and no block fetch for consumers, so the model has none of them. The reservation simply refuses a request that does not fit.
- Reserve: the grant condition is stated only for states whose allocated span is within C. Those are all reachable states (`Interleaving.RunKeepsInv`). For other states the function still follows the source's wrapping `size_t` arithmetic.
- WriteLogMessage: after init it requires the line to be shorter than 2^32 and fewer than 2^32 - 1 writers in flight. A longer line cannot be measured in a 32-bit `size_t`. Past that count, the counter wrap would trip the release `ASSERT`.
- WriteRawMessage: the same two preconditions after init, for the same reasons.
- WriteLine: it models one writer with nothing interleaved; interleaved writers are in `Interleaving`.
- Interleaving.StepKeepsInv: an event the firmware cannot produce is a no-op. Examples are an empty line (every real line ends in a line feed), a consumer reading past head, or an index that names no suitable writer.
- Interleaving.PublishedIsWritten: it covers the bytes allocated during the modelled run. Bytes already published when the run began, for instance kept across a warm reset, were written by an earlier boot that the model does not trace.
- Characters are Dafny `char`s rather than bytes. The code only copies them and never interprets them.
