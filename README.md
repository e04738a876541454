# MyDHT11 driver model

This project models the `MyDHT11` driver of the home-automation firmware in Dafny. The driver reads a DHT11 humidity and temperature sensor over a single data wire. One call of `read()` has four parts:

- It waits for the sensor's acknowledge: first while the line is LOW, then while it is HIGH.
- It samples 40 bits, each encoded by the length of a HIGH pulse. It folds them most significant bit first into a 5-byte frame.
- It stores byte 0 as the humidity and byte 2 as the temperature.
- It accepts the frame when byte 4 equals the low 8 bits of byte 0 plus byte 2.

The hardware is an input to the model:

- `line(k)` is the level returned by the k-th `digitalRead` during one call.
- `clock(k)` is the value returned by the k-th `micros()` call, an `unsigned long`, so 32 bits.
- Bit `i` reads the clock twice: once before its HIGH wait, giving `clock(2 i)`, and once after, giving `clock(2 i + 1)`.
- Every call gets its own pair of traces.

Nothing about real time is assumed, so the proved properties hold for every line and clock behaviour. This includes clocks that wrap around 2^32.

The modules:

- `Frame`: the 5-byte frame and the most-significant-first fold (`FrameOf`). It proves the fold round-trip and the driver's two-byte checksum, including what that checksum catches and what it does not.
- `SingleWire`: the receiving side. `SpinWhile` is the bounded spin loop `while (digitalRead(pin) == held) if (loopCnt-- == 0) return false;` and the method `PollWhile` runs it sample by sample. `ReadBit` and `PollBit` cover one bit: its LOW wait, its HIGH wait on the remaining budget, and the classification of the pulse. `ReadBits` covers the whole bit loop and `Receive` the whole transfer.
- `Transmission`: a sender that encodes any frame as a line and clock, together with the round-trip theorem `ReceiveSent`.
- `Dht11Driver`: the class `MyDHT11` with its pin and the two stored readings, and the methods `Read`, `ReadFrame`, `GetTemperature`, `GetHumidity` and `WaitForState`.
- `Scenarios`: a client that uses only the contracts. It reads the frame 45, 0, 24, 0, 69 and gets humidity 45 and temperature 24. A fresh driver then receives the frame 50, 0, 20, 0, 69, which fails the checksum. The read is refused, yet the stored readings have become 50 and 20. A silent line afterwards leaves them at 50 and 20.

`Firmware/DEMO_FINAL_PFC/MyDHT11.cpp` and `Firmware/DEMO_FINAL_PFC/MyDHT11/MyDHT11.cpp` are identical, and one model covers both: every line cited below is the same line in either copy.

Where the DHT11 protocol and the code differ, the model follows the code:

- The protocol's checksum is the low 8 bits of the sum of all four data bytes. The code adds only bytes 0 and 2, and so does `ChecksumOk`. `ChecksumAgreesWithoutDecimals` shows the two tests agree when the decimal bytes are 0. `ChecksumRejectsDecimalFrame` shows a frame with a temperature decimal byte that the protocol accepts and the driver refuses.
- The code stores humidity and temperature (lines 77-78) before it tests the checksum (line 81). A frame that fails the checksum therefore still overwrites the stored readings. This happens even though the getters are documented to return the last successful reading (lines 94 and 103). `Read` states the behaviour as written, and `Scenarios.RefusedReading` shows a refused frame replacing 0 and 0 with 50 and 20 (see "## Findings").
- `read()` reports only a boolean. Timeouts and checksum failures are not told apart.

## Model

| member | source | states |
|---|---|---|
| Dht11Driver.MyDHT11.constructor | Firmware/DEMO_FINAL_PFC/MyDHT11.cpp:17-19 | the pin is recorded and both stored readings start at 0 |
| Dht11Driver.MyDHT11.Read | Firmware/DEMO_FINAL_PFC/MyDHT11.cpp:30-91 | the result is true iff the whole transfer arrives and byte 4 equals (byte 0 + byte 2) & 0xFF; once all 40 bits have arrived, humidity and temperature are bytes 0 and 2 of the received frame even when the checksum then fails; when any wait times out both readings keep their previous values |
| Dht11Driver.MyDHT11.ReadFrame | Firmware/DEMO_FINAL_PFC/MyDHT11.cpp:54-75 | the bit loop over `bits`, `cnt` and `idx`: it completes iff all 40 bit reads complete, and `bits` then holds the received bits folded most significant first (bit i in byte i / 8 at position 7 - i % 8); every write `bits[idx]` is in bounds, so idx <= 4, and after the loop idx == 5 and cnt == 7 |
| Dht11Driver.MyDHT11.GetTemperature | Firmware/DEMO_FINAL_PFC/MyDHT11.cpp:98-100 | returns the stored temperature, a byte value, and changes nothing |
| Dht11Driver.MyDHT11.GetHumidity | Firmware/DEMO_FINAL_PFC/MyDHT11.cpp:107-109 | returns the stored humidity, a byte value, and changes nothing |
| Dht11Driver.MaxTimeoutWaitsForState | Firmware/DEMO_FINAL_PFC/MyDHT11.cpp:123 | with timeout 0xFFFFFFFF no modular `micros()` difference exceeds it, so `waitForState` ends iff some sample reads `state` |
| Dht11Driver.WaitEnds | Firmware/DEMO_FINAL_PFC/MyDHT11.cpp:122-125 | defines the inputs on which `waitForState` stops: some sample reads `state` or some `micros()` reading after it is more than `timeout` past the first |
| Dht11Driver.StillWaiting | Firmware/DEMO_FINAL_PFC/MyDHT11.cpp:122-123 | defines one more turn of the loop after sample j: the sample missed `state` and the modular difference `micros() - startTime` is at most `timeout` |
| Dht11Driver.StoredAfter | Firmware/DEMO_FINAL_PFC/MyDHT11.cpp:77-78 | the readings `read()` leaves, as written: bytes 0 and 2 of any frame that arrived in full, checksum or not; the previous ones after a timeout; `Read`'s contract is stated with it |
| Dht11Driver.LastSuccessful | Firmware/DEMO_FINAL_PFC/MyDHT11.cpp:94-109 | the readings the getters are documented to return: they change only for a frame that passes the checksum, and then to its bytes 0 and 2 |
| Dht11Driver.StoredAgreesWhenAccepted | Firmware/DEMO_FINAL_PFC/MyDHT11.cpp:77-82 | on an accepted frame or a timeout, the stored readings are the last successful ones |
| Dht11Driver.RefusedFrameOverwrites | Firmware/DEMO_FINAL_PFC/MyDHT11.cpp:77-90 | the refused frame 50, 0, 20, 0, 69 leaves 50 and 20 stored, where the last successful readings are still 0 and 0 |
| Dht11Driver.MyDHT11.WaitForState | Firmware/DEMO_FINAL_PFC/MyDHT11.cpp:120-128 | true means some sample reads `state` and every earlier sample neither read it nor saw the modular `micros()` difference exceed `timeout`; false means some sample missed `state` with the difference already past `timeout`, again with every earlier sample still waiting |
| SingleWire.SpinWhile | Firmware/DEMO_FINAL_PFC/MyDHT11.cpp:44-46 | defines the spin loop `while (digitalRead(pin) == held) if (loopCnt-- == 0) return false;` on the sample trace; its contract bounds where a finished wait stops and what is left of the budget. The same loop appears at lines 49-51, 56-58 and 61-63 |
| SingleWire.Duration | Firmware/DEMO_FINAL_PFC/MyDHT11.cpp:60-65 | defines the pulse length of bit i as the modular difference between the `micros()` reading before its HIGH wait and the one after |
| SingleWire.ReadBit | Firmware/DEMO_FINAL_PFC/MyDHT11.cpp:55-67 | defines one iteration of the bit loop; when it completes it moves at least two samples on, and its bit is 1 iff the measured pulse is longer than 50 microseconds |
| SingleWire.ReadBits | Firmware/DEMO_FINAL_PFC/MyDHT11.cpp:54-75 | defines the first n iterations of the bit loop; when they complete they yield n bits and use at least 2 n samples |
| SingleWire.Receive | Firmware/DEMO_FINAL_PFC/MyDHT11.cpp:43-75 | defines one transfer: the two acknowledge waits with budgets 10000 and 30000, then the 40-bit loop folded into a frame, or nothing when any wait times out |
| SingleWire.ReceiveDetermined | Firmware/DEMO_FINAL_PFC/MyDHT11.cpp:43-75 | on any line and clock, a completed transfer whose measured pulses classify as the bits of f yields exactly f |
| SingleWire.Elapsed | Firmware/DEMO_FINAL_PFC/MyDHT11.cpp:65 | `micros() - t` on unsigned long: now - since without a wrap, now + 2^32 - since across one wrap |
| SingleWire.SpinWhileEnds | Firmware/DEMO_FINAL_PFC/MyDHT11.cpp:43-51 | a spin loop with budget b times out iff the b + 1 samples from its start all read the held level; otherwise it stops at the first sample that does not, after at most b + 1 samples, with one unit spent per held sample |
| SingleWire.SpinEndsAt | Firmware/DEMO_FINAL_PFC/MyDHT11.cpp:56-58 | d held samples and then another level, with d within the budget, end the wait right after them with d units spent |
| SingleWire.PollWhile | Firmware/DEMO_FINAL_PFC/MyDHT11.cpp:44-46 | the sample-by-sample loop with a post-decremented counter ends exactly as `SpinWhile` says, returning the left-over counter |
| SingleWire.PollBit | Firmware/DEMO_FINAL_PFC/MyDHT11.cpp:55-65 | one bit: the LOW wait with a fresh budget of 10000, a `micros()` reading, the HIGH wait on what is left of the same budget, a second reading; it ends as `ReadBit` says |
| SingleWire.SharedBitBudget | Firmware/DEMO_FINAL_PFC/MyDHT11.cpp:55-63 | a bit with `lows` LOW samples and `highs` further HIGH samples is received iff lows + highs <= 10000, the two waits sharing one budget, and then the bit takes lows + highs + 2 samples |
| SingleWire.HighWait | Firmware/DEMO_FINAL_PFC/MyDHT11.cpp:61-63 | the HIGH wait of a bit spends only what the LOW wait left: it completes iff the HIGH samples fit in that remainder |
| SingleWire.ReadBitsValues | Firmware/DEMO_FINAL_PFC/MyDHT11.cpp:65 | in a completed bit loop, bit i is 1 iff the i-th measured pulse is strictly longer than 50 microseconds, so exactly 50 is a 0 |
| SingleWire.ReadBitsStep | Firmware/DEMO_FINAL_PFC/MyDHT11.cpp:54-75 | one more loop iteration appends its bit, or stalls the whole loop |
| SingleWire.ReadBitsLast | Firmware/DEMO_FINAL_PFC/MyDHT11.cpp:54-75 | a completed loop of n > 0 iterations is a completed loop of n - 1 iterations plus one classified bit |
| SingleWire.StalledStaysStalled | Firmware/DEMO_FINAL_PFC/MyDHT11.cpp:57 | once an iteration times out, the transfer fails whatever the later samples are |
| SingleWire.StallStep | Firmware/DEMO_FINAL_PFC/MyDHT11.cpp:62 | a stall is still a stall after one more iteration |
| SingleWire.ReceiveAfterHandshake | Firmware/DEMO_FINAL_PFC/MyDHT11.cpp:43-75 | after both acknowledge waits end, the transfer is the fold of the 40 bits when the bit loop completes, and nothing otherwise |
| SingleWire.ReceivedBits | Firmware/DEMO_FINAL_PFC/MyDHT11.cpp:65-67 | bit i of a received frame, byte i / 8 at position 7 - i % 8, is set iff the i-th measured pulse exceeds 50 microseconds |
| SingleWire.NoResponse | Firmware/DEMO_FINAL_PFC/MyDHT11.cpp:43-46 | a line that stays LOW for the first 10001 samples makes the first wait give up: nothing is received |
| SingleWire.NoRelease | Firmware/DEMO_FINAL_PFC/MyDHT11.cpp:48-51 | a line that leaves LOW within the first budget but then stays HIGH for 30001 samples makes the second wait give up |
| Frame.Mask | Firmware/DEMO_FINAL_PFC/MyDHT11.cpp:66 | defines `1 << cnt` as a byte for positions 0 to 7 |
| Frame.Bit | Firmware/DEMO_FINAL_PFC/MyDHT11.cpp:66-74 | defines bit i of the stream as position 7 - i % 8 of byte i / 8, most significant bit first |
| Frame.FrameOf | Firmware/DEMO_FINAL_PFC/MyDHT11.cpp:31 | defines the zeroed `bits[5]` after the bits received so far are ORed into it one by one, as at lines 66-74 |
| Frame.ChecksumOk | Firmware/DEMO_FINAL_PFC/MyDHT11.cpp:81 | defines the acceptance test: byte 4 equals (byte 0 + byte 2) & 0xFF |
| Frame.ByteValue | Firmware/DEMO_FINAL_PFC/MyDHT11.cpp:77-78 | a `uint8_t` stored into an `int` field is a value in 0..255 |
| Frame.FrameOfBits | Firmware/DEMO_FINAL_PFC/MyDHT11.cpp:66-74 | folding bits into a zeroed frame, most significant first, puts bit i in byte i / 8 at position 7 - i % 8, and leaves the bits not yet received clear |
| Frame.FoldStep | Firmware/DEMO_FINAL_PFC/MyDHT11.cpp:65-67 | folding one more bit ORs its mask into its byte for a 1 and changes nothing for a 0 |
| Frame.FoldInto | Firmware/DEMO_FINAL_PFC/MyDHT11.cpp:66-74 | with `idx` and `cnt` at the next bit's byte and position, ORing `1 << cnt` into `bits[idx]` for a 1, and nothing for a 0, gives the fold of the bits with the new one appended |
| Frame.SetBit | Firmware/DEMO_FINAL_PFC/MyDHT11.cpp:66 | ORing in the mask of bit n sets bit n and no other bit |
| Frame.FrameFromBits | Firmware/DEMO_FINAL_PFC/MyDHT11.cpp:31 | two 5-byte frames that agree on all 40 bits are equal |
| Frame.FoldBitsOf | Firmware/DEMO_FINAL_PFC/MyDHT11.cpp:66-74 | round trip: folding the 40 bits of any frame gives that frame back |
| Frame.ChecksumIgnoresDecimals | Firmware/DEMO_FINAL_PFC/MyDHT11.cpp:81 | acceptance depends on bytes 0, 2 and 4 only; bytes 1 and 3 are irrelevant |
| Frame.ChecksumAgreesWithoutDecimals | Firmware/DEMO_FINAL_PFC/MyDHT11.cpp:81 | with both decimal bytes 0, the driver's test is the protocol's four-byte checksum |
| Frame.ChecksumRejectsDecimalFrame | Firmware/DEMO_FINAL_PFC/MyDHT11.cpp:81 | the frame 45, 0, 24, 5, 74 satisfies the four-byte checksum and fails the driver's test |
| Frame.ChecksumCatchesByteChange | Firmware/DEMO_FINAL_PFC/MyDHT11.cpp:81-90 | changing one byte of an accepted frame makes it refused iff the byte is 0, 2 or 4 |
| Frame.ChecksumCatchesSingleFlip | Firmware/DEMO_FINAL_PFC/MyDHT11.cpp:81-90 | inverting any single bit of byte 0, 2 or 4 of an accepted frame makes it refused; a bit of byte 1 or 3 goes unnoticed |
| Frame.ChecksumCatchesHumidityChange | Firmware/DEMO_FINAL_PFC/MyDHT11.cpp:81 | a changed byte 0 with bytes 2 and 4 kept is refused |
| Frame.ChecksumCatchesTemperatureChange | Firmware/DEMO_FINAL_PFC/MyDHT11.cpp:81 | a changed byte 2 with bytes 0 and 4 kept is refused |
| Frame.ChecksumCatchesChecksumChange | Firmware/DEMO_FINAL_PFC/MyDHT11.cpp:81 | a changed byte 4 with bytes 0 and 2 kept is refused |
| Transmission.ElapsedAfter | Firmware/DEMO_FINAL_PFC/MyDHT11.cpp:65 | two `micros()` readings d apart measure d, also across a wrap-around |
| Transmission.PulseClockDuration | Firmware/DEMO_FINAL_PFC/MyDHT11.cpp:60-65 | the encoding clock makes the driver measure `one` for a 1 bit and `zero` for a 0 bit |
| Transmission.ReadBitToggling | Firmware/DEMO_FINAL_PFC/MyDHT11.cpp:55-67 | on a line that toggles at every sample, each bit is read in two samples and classified by its measured pulse |
| Transmission.ReadBitsToggling | Firmware/DEMO_FINAL_PFC/MyDHT11.cpp:54-75 | on the toggling line the whole bit loop completes, two samples per bit |
| Transmission.ReceiveSent | Firmware/DEMO_FINAL_PFC/MyDHT11.cpp:30-75 | round trip on the line that toggles at every sample: any 5 bytes, sent with one pulse length `one` > 50 microseconds for every 1 bit and one length `zero` <= 50 for every 0 bit, are received exactly, whatever the clock reads at the start; `SingleWire.ReceiveDetermined` covers pulse lengths that vary from bit to bit |

## Findings

| source | as written | input that shows it | evidently intended | confidence | as-written member | corrected member |
|---|---|---|---|---|---|---|
| Firmware/DEMO_FINAL_PFC/MyDHT11.cpp:77-81 | humidity and temperature are stored before the checksum test, so a refused frame still replaces them | the frame 50, 0, 20, 0, 69 after readings 0 and 0: `read()` returns false and the getters give 50 and 20 | the getters return the last successful reading (lines 94 and 103), so a refused frame leaves them alone | high, not executed | Dht11Driver.RefusedFrameOverwrites | Dht11Driver.LastSuccessful |

## Left out

- The wake pulse (`Firmware/DEMO_FINAL_PFC/MyDHT11.cpp:36-41`) and the constructor's `pinMode` (line 18) drive the pin and sample nothing. They are left out; the traces start after them.
- The serial diagnostics on a checksum failure (lines 84-88) are output only and do not affect the result or the fields.
- Real time is not modelled. The model does not relate sample counts or loop budgets to microseconds, and it does not model interrupt latency. The line and clock traces are arbitrary, so the contracts hold for every timing.
- `unsigned int loopCnt`, 16 bits on AVR: every budget (10000, 30000) fits. The counter wraps only in the final `loopCnt-- == 0` test of a timed-out wait (lines 45, 50, 57 and 62), and `return false` follows at once, so the wrapped value is never read and no wrap-around is modelled.
- Dht11Driver.MyDHT11.WaitForState: its contract requires that the wait ends, meaning some sample reads `state` or some clock reading exceeds the timeout. The source's loop does not terminate otherwise, and the model leaves that non-terminating case out. The case is reachable: with `timeout == 0xFFFFFFFF` the test at line 123 can never hold, so on a line that never reads `state` the call spins forever (`Dht11Driver.MaxTimeoutWaitsForState`).
- Dht11Driver.MyDHT11.ReadFrame: the 40-bit loop of `read()` is a separate method over a fresh `bits` array so that each part can be checked on its own. `Read` calls it right after the handshake, as the code runs the loop there.
- The class declarations in the headers `MyDHT11.h` are not part of this model beyond the fields and methods the class mirrors.
