# NPA 201 pressure sensor driver, modelled in Dafny

The driver talks to an Amphenol NPA 201 over I2C. Every public accessor first
refreshes. A refresh sends the one read command: begin a transmission to address
0x27, write 0xAC, end the transmission. Only if that transmission reports status
0 does the driver wait 20 ms, request five bytes and read them into its frame
`NPADATA`. The frame holds status, pressure high, pressure low, temperature high
and temperature low. A failed transmission leaves the frame as the previous read
left it, and the frame is all zeros before the first read. The raw getters build a
big-endian 16-bit value, `(hi << 8) | lo`, from a byte pair of the frame.

The project has three modules:

- `I2C` (`i2c.dfy`) is the transport as a scripted oracle, `ScriptedBus`.
  - `endStatus` is what the next `endTransmission()` reports.
  - `rx` is the queue of bytes that `available()` counts and `read()` takes from.
  - `idle` is what `read()` yields once `rx` is empty. It is any byte the script chooses, the same byte on every such read.
  - `log` records every call except `available()`: `Begin`, `Write`, `End`, `Request`, `Read` and `Wait`.
  - `TxStatus` is the closed enumeration of the five outcome codes 0 to 4.
- `NPA201` (`npa201.dfy`) holds the constants, the byte layout, and the
  specification of the read loop and of the calls one refresh makes. It also
  holds the driver class `Sensor`, whose `data` array is `NPADATA`. Its methods
  are stated against those specification functions. The twostate predicate
  `RefreshedOnce` gives the frame, queue and log after exactly one refresh.
- `Scenarios` (`scenarios.dfy`) holds client methods. They show what a caller
  can conclude from the contracts alone.

Bytes are `bv8` and raw values `bv16`. Combining uses the source's shift and or.
The lemmas connect these bit operations with arithmetic: hi * 256 + lo, / 256 and % 256.

The read loop `while (available()) for (i = 0; i < 5; i++) NPADATA[i] = read();`
is specified by `Drained`. Each pass stores five values: the waiting bytes in
order, then the idle value once the queue runs dry. Passes continue while any
byte waits. So a refresh whose request finds bytes replaces all five slots. The
result is the last started group of five, padded with the idle value. A refresh
whose request finds nothing leaves the frame unchanged, yet `getData` still
returns true.

A successful refresh reads in groups of five for as long as `available()` reports
bytes (NPA201.cpp:136-142). With more than five waiting it keeps the last group;
with fewer it pads with the idle value.

## Model

| member | source | states |
|---|---|---|
| I2C.StatusCode | NPA201.cpp:120-126 | each outcome has a code in 0..4, and the code is 0 exactly for success |
| I2C.FromCode | NPA201.cpp:121-125 | every code 0..4 stands for an outcome, and that outcome's code is the given code |
| I2C.CodeRoundTrip | NPA201.cpp:121-125 | decoding an outcome's code gives the outcome back |
| I2C.ScriptedBus.BeginTransmission | NPA201.cpp:114 | the call is logged as Begin(address) and nothing else changes |
| I2C.ScriptedBus.Write | NPA201.cpp:118 | the call is logged as Write(value) |
| I2C.ScriptedBus.EndTransmission | NPA201.cpp:126 | it returns the scripted outcome and logs End |
| I2C.ScriptedBus.RequestFrom | NPA201.cpp:133 | the call is logged as Request(address, quantity) |
| I2C.ScriptedBus.Available | NPA201.cpp:136 | it returns the number of waiting bytes and changes nothing |
| I2C.ScriptedBus.Read | NPA201.cpp:142 | it returns and removes the oldest waiting byte, or returns the idle value when none waits; it logs Read |
| I2C.ScriptedBus.Wait | NPA201.cpp:98 | the call is logged as Wait(millis) |
| NPA201.Combine | NPA201.cpp:39 | hi shifted left by 8 and or-ed with lo equals hi * 256 + lo |
| NPA201.HighByte | NPA201.cpp:145 | bits 15:8 of a value equal the value divided by 256 |
| NPA201.LowByte | NPA201.cpp:146 | bits 7:0 of a value equal the value modulo 256 |
| NPA201.SplitCombine | NPA201.cpp:144-148 | splitting a combined pair gives the pair back: hi is bits 15:8 and lo is bits 7:0 |
| NPA201.CombineSplit | NPA201.cpp:54 | combining the two halves of any 16-bit value gives the value back |
| NPA201.CombineBounds | NPA201.cpp:39 | (0x00, 0x00) gives 0x0000 and (0xFF, 0xFF) gives 0xFFFF |
| NPA201.Fill | NPA201.cpp:139-142 | one pass stores five values, and with five or more bytes waiting these are the first five |
| NPA201.Drained | NPA201.cpp:136-150 | draining a non-empty queue leaves a five-byte frame; draining an empty one keeps the frame's length (EmptyRefreshKeepsFrame gives the unchanged frame itself) |
| NPA201.PassesClosedForm | NPA201.cpp:136-140 | the loop makes one pass per started group of five waiting bytes |
| NPA201.DrainedLastPass | NPA201.cpp:136-150 | the frame after the loop is what its last pass read, whatever the frame held before |
| NPA201.DrainedNoPartialOverwrite | NPA201.cpp:139-149 | once any byte is read, no slot of the earlier frame survives |
| NPA201.DrainedWholeFrames | NPA201.cpp:136-150 | when the device supplies whole frames, the last of them is kept |
| NPA201.DrainedOneFrame | NPA201.cpp:133-148 | when the device supplies exactly b0..b4, the frame becomes [b0, b1, b2, b3, b4] |
| NPA201.FailedRefreshKeepsFrame | NPA201.cpp:95-104 | a refresh whose command fails leaves the frame unchanged |
| NPA201.EmptyRefreshKeepsFrame | NPA201.cpp:95-100 | a successful command that finds nothing to read leaves the frame unchanged |
| NPA201.FullRefreshStoresFrame | NPA201.cpp:95-101 | a successful command answered by one frame stores that frame in index order |
| NPA201.OneAttempt | NPA201.cpp:92-105 | a refresh begins one transmission, writes one command and ends one transmission, so it never retries |
| NPA201.OneMoreAttempt | NPA201.cpp:24 | appending one refresh to any call log adds exactly one begun transmission |
| NPA201.FailedRefreshLog | NPA201.cpp:95-104 | after a failed command there is no wait, no request and no read |
| NPA201.SuccessfulRefreshLog | NPA201.cpp:95-101 | after a successful command: Wait(20), then Request(0x27, 5), then only reads, five per pass |
| NPA201.ReadCounts | NPA201.cpp:133-142 | a one-frame response takes exactly five reads and an empty one none |
| NPA201.Sensor.constructor | NPA201.cpp:12 | the frame starts as five zeros |
| NPA201.Sensor.SendNPAReadCommand | NPA201.cpp:109-127 | it calls Begin(0x27), Write(0xAC), End in that order and returns that transmission's code unchanged |
| NPA201.Sensor.ReadNPAData | NPA201.cpp:130-151 | it requests five bytes; the frame becomes the drained frame, the queue is emptied, and the log gains the request and five reads per pass |
| NPA201.Sensor.GetData | NPA201.cpp:92-105 | it returns true exactly when the command succeeds, makes exactly one attempt, and its frame and calls are those of one refresh |
| NPA201.Sensor.GetStatus | NPA201.cpp:21-27 | one refresh, then the status byte of the refreshed frame |
| NPA201.Sensor.GetRawPressure | NPA201.cpp:30-42 | one refresh, then byte 1 * 256 + byte 2 of the refreshed frame, so bits 15:8 and 7:0 are bytes 1 and 2 |
| NPA201.Sensor.GetRawTemperature | NPA201.cpp:45-57 | one refresh, then byte 3 * 256 + byte 4 of the refreshed frame, so bits 15:8 and 7:0 are bytes 3 and 4 |
| NPA201.Sensor.GetPressure | NPA201.cpp:60-67 | one refresh through one raw pressure read; the result derives from frame bytes 1 and 2 |
| NPA201.Sensor.GetTemperature | NPA201.cpp:70-77 | one refresh through one raw temperature read; the result derives from frame bytes 3 and 4 |
| NPA201.Sensor.GetAltitude | NPA201.cpp:80-87 | one refresh through one pressure read; the result derives from the raw pressure |
| Scenarios.ExampleFrame | NPA201.cpp:21-57 | a device that answers [0x00, 0x20, 0x00, 0x40, 0x00] gives status 0, raw pressure 0x2000 and raw temperature 0x4000 |
| Scenarios.NothingReadYet | NPA201.cpp:12 | before any successful read, a failed command serves the all-zero frame |
| Scenarios.StaleOnFailure | NPA201.cpp:103 | after a read, a failed command serves the same frame again and makes only the three command calls |

## Left out

- NPA201.Sensor.GetPressure: computes no number. It returns `PressureOf(raw)`, which stands for the single-precision value `raw/65535*1000+260`. Float rounding is not modelled.
- NPA201.Sensor.GetTemperature: returns `TemperatureOf(raw)`, which stands for `raw/65535*125-40`. The arithmetic is not modelled, for the same reason.
- NPA201.Sensor.GetAltitude: returns `AltitudeOf(PressureOf(raw))`, which stands for `44330*(1-pow(p/1013.25,1/5.255))`. Floating-point `pow` is not modelled.
- The `ArduinoI2C` / `I2CInterface` implementation (ArduinoI2C.h is not part of this model). The bus is a scripted oracle instead.
- `requestFrom` is only logged. The queue `rx` stands for the bytes the bus holds after the request. How many bytes arrive is up to the script.
- What `read()` returns on an empty bus is a scripted `idle` byte. The model assumes nothing about its value, except that it is the same byte on every such read.
- The 20 ms delay is recorded as a `Wait(20)` event. No time passes.
- The static transport pointer and the static `NPADATA` buffer (NPA201.cpp:10-12) are fields of one `Sensor` instance. In the source, all instances share one buffer. No concurrency is modelled.
- The `uint8_t` loop counter of the inner loop is a mathematical integer. It only runs from 0 to 5, so it cannot wrap.
