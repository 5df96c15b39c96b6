# MPL3115A2 barometer/altimeter driver — a Dafny model

This project models the libhal driver for the NXP MPL3115A2 pressure, altitude and
temperature sensor on an I2C bus. The sensor runs in one-shot mode. The driver
does the following:

- `create`/`init`/`begin` check the identity byte (0xC4) and issue a software reset.
  They wait for the reset bit to clear, select altimeter mode with 128x
  oversampling, and enable data-ready events.
- `read_temperature`/`t_read`, `read_pressure`/`p_read` and `read_altitude`/`a_read`
  each trigger one measurement. Pressure and altitude first switch the mode only
  when the recorded mode differs.
- Every measurement:
  1. waits for CTRL_REG1's OST bit to clear;
  2. sets OST in the byte it just read;
  3. polls STATUS until PTDR is set;
  4. reads the data registers and converts them.
- `set_sea_pressure` writes the sea-level pressure in 2 Pa units.
  `set_altitude_offset` writes a signed byte.

The modules:

- `Bytes`: bytes (`bv8`), the C++ `int8_t`, and big-endian assembly with its inverse.
- `Registers`: the mode enumeration and the register map. It also holds the two
  CTRL_REG1 edits: the mode-bit toggle and the OST set.
- `Conversion`:
  - raw-reading assembly;
  - the conversions to degrees Celsius, Pascals and meters;
  - the calibration payloads.
- `Bus`: the I2C adapter, a class whose device answers come from a script of
  replies (an acknowledgement carrying bytes, or a refusal). Every attempted
  transaction, completed or refused, is appended to a ghost log.
- `Protocol`: predicates over that log. They cover the initialisation sequence, a
  polling run, a mode switch, a measurement cycle and a pressure or altitude read.
  The ordering facts proved about them are also here.
- `Driver`: each operation of the driver as a function of the reply script. It gives
  the result, the transactions attempted and the replies left over. The promises of
  the driver are proved about these functions:
  - a bus error surfaces as `BusError` exactly when the last attempt was refused, and
    nothing is attempted after it (no retry);
  - `Timeout` occurs exactly when a poll spent its budget on reads showing the old state.
    For a measurement, that is the OST poll, or the PTDR poll after the trigger was written.
    For a pressure or altitude read, it is that measurement, after the mode switch if one is needed;
  - `UnexpectedDevice` occurs exactly when the identity byte is wrong;
  - on success, the transactions form the sequence the `Protocol` predicates describe;
  - `begin`, a measurement and a read succeed exactly when no attempt was refused, no
    poll ran out and, for `begin`, the identity matched. The `*Answered` lemmas show
    concrete scripts on which they succeed.
- `Mpl`: the session class. It holds the bus, the register map, the poll budget and
  `sensor_mode`. Every operation of the driver is a method. Each method is proved to
  return what its `Driver` function returns, to log exactly the transactions that
  function lists, and to consume the same replies. Apart from the two polling loops,
  each method also states those of the properties above that apply to its step. The
  loops state only the tie, and the methods that call them use `Driver.PollFacts` and
  `Driver.AwaitReadyIsPoll`.

Where the code, its header and its comments differ, the model follows the code,
read with its evident intent:

- `t_read` assembles the temperature from `temp_buffer[4]` in a two-byte buffer. The
  model uses byte 1, the OUT_T_LSB register the comment names.
- `a_read` assembles from an undeclared `buffer`. The model uses `alt_buffer`, the
  buffer it has just read.
- `p_read` and `a_read` call `setMode`. The model calls `set_mode`.
- The header declares class `mpl` with `create`/`init`, and the source defines
  `mpl311::begin`. Both are modelled as one session, whose `Init` is `begin`.
- The header says pressure is converted to kilopascals. The code divides by 64, which
  gives Pascals, as its own comment and `pressure_read_t` state. The model gives
  Pascals.
- The offset is documented as -127..128, but the parameter is `int8_t`, so the
  model takes -128..127.
- `set_mode` and `initiate_one_shot` are `void` yet use `HAL_CHECK`. They are
  modelled as returning a status. A failure of theirs fails the read that called
  them, because a read must not report a value after a failed trigger.
- The three `while (1)` loops are modelled as bounded by the session's `budget`. A
  loop that exhausts the budget returns `Timeout` instead of hanging.

## Model

| member | source | states |
|---|---|---|
| Registers.ModeValue | include/libhal-mpl/mpl.hpp:30-33 | BAROMETER_M is 0 and ALTIMETER_M is 1, and these are the only values |
| Registers.CtrlConfig | src/mpl311.cpp:33 | the CTRL_REG1 value begin writes, OS128 \| ALT; its bits are stated by Registers.CtrlConfigBits |
| Registers.CtrlConfigBits | src/mpl311.cpp:33 | the CTRL_REG1 configuration has OS128 and ALT set and every other bit clear |
| Registers.EventConfig | src/mpl311.cpp:37-41 | the PT_DATA_CFG value begin writes, TDEFE \| PDEFE \| DREM; its bits are stated by Registers.EventConfigBits |
| Registers.EventConfigBits | src/mpl311.cpp:37-41 | the PT_DATA_CFG configuration has TDEFE, PDEFE and DREM set and every other bit clear |
| Registers.AltBit | src/mpl311.cpp:56 | the ALT bit of a CTRL_REG1 value is 0 or 1, and 1 exactly when bit 7 is set |
| Registers.WithMode | src/mpl311.cpp:55-56 | reference edit of CTRL_REG1: every bit except bit 7 is kept, and bit 7 becomes the mode value |
| Registers.ModeToggle | src/mpl311.cpp:56 | the XOR expression `b ^ ((-mode ^ b) & 0x80)` equals the reference edit for every byte and mode |
| Registers.WithOst | src/mpl311.cpp:76-77 | the trigger byte has OST set and every other bit as read |
| Registers.OneShotKeepsMode | src/mpl311.cpp:77 | setting OST after a mode switch keeps the ALT bit at the chosen mode |
| Registers.TriggerKeepsAlt | src/mpl311.cpp:77 | the trigger byte has the same ALT bit as the byte it was made from |
| Registers.ConfigSelectsAltimeter | src/mpl311.cpp:30-34 | the byte init writes has ALT set, which agrees with `sensor_mode = ALTIMETER_M` |
| Bytes.FromBigEndian | src/mpl311.cpp:127-129 | the value of `n` bytes read most significant first is below 256^n |
| Bytes.ToBigEndian | src/mpl311.cpp:173-174 | a value below 256^k splits into exactly `k` bytes, most significant first |
| Bytes.FromToBigEndian | src/mpl311.cpp:171-174 | splitting a value into big-endian bytes and assembling them gives the value back |
| Bytes.ToFromBigEndian | src/mpl311.cpp:127-129 | assembling bytes big-endian and splitting the value gives the bytes back |
| Bytes.FromInt8 | src/mpl311.cpp:186 | `hal::byte(offset)`: a non-negative offset is its own byte, and a negative one is offset + 256 |
| Bytes.AsInt8 | src/mpl311.cpp:186 | a byte read as `int8_t` is negative exactly when its top bit is set, and is congruent to the byte modulo 256 |
| Bytes.Int8RoundTrip | src/mpl311.cpp:186 | the offset byte read back as `int8_t` is the offset |
| Bytes.ByteRoundTrip | src/mpl311.cpp:186 | every byte is the encoding of its own `int8_t` reading, so the encoding is onto |
| Conversion.TemperatureRaw | src/mpl311.cpp:105 | an `int16_t` in [-32768, 32768) that is negative exactly when the MSB's top bit is set; plus 65536 when negative, it is MSB*256+LSB, whose two big-endian bytes are the buffer |
| Conversion.PressureRaw | src/mpl311.cpp:127-129 | MSB<<16 \| CSB<<8 \| LSB below 2^24, whose three big-endian bytes are the buffer |
| Conversion.AltitudeRaw | src/mpl311.cpp:151-153 | the 24-bit reading shifted left by 8: below 2^32, a multiple of 256, and its four bytes are the buffer followed by 0 |
| Conversion.Celsius | src/mpl311.cpp:98-108 | degrees are counts / 256 and lie in [-128, 128) |
| Conversion.Pascals | src/mpl311.cpp:119-133 | Pascals are counts / 64 and lie in [0, 262144) |
| Conversion.Meters | src/mpl311.cpp:144-157 | meters are counts / 65536 and lie in [0, 65536) |
| Conversion.ConversionExamples | src/mpl311.cpp:119-120 | 0x6400 is 100 degrees, 6400 counts are 100 Pa, and 50*65536 counts are 50 m |
| Conversion.HalfTruncated | src/mpl311.cpp:168 | `pressure / 2` converted to an integer is truncated toward zero: 2*bar <= p < 2*bar + 2 for p >= 0, and 2*bar - 2 < p <= 2*bar below 0 |
| Conversion.SeaPressurePayload | src/mpl311.cpp:165-177 | BAR_IN_MSB followed by two bytes whose big-endian value `bar` satisfies 2*bar <= pressure < 2*bar + 2, and is 0 for a pressure in (-2, 0) |
| Conversion.SeaPressureDefault | include/libhal-mpl/mpl.hpp:73-74 | the startup default 101326 Pa is written as 0xC5, 0xE7 |
| Conversion.OffsetPayload | src/mpl311.cpp:184-187 | OFF_H followed by a byte that reads back as the offset |
| Bus.I2c.constructor | src/mpl311.cpp:10 | a bus starts with the device's reply script and an empty log |
| Bus.I2c.Write | src/mpl311.cpp:18 | a write succeeds exactly when the next reply acknowledges; it consumes that reply and logs the attempt, as a refused write when it fails |
| Bus.I2c.WriteThenRead | src/mpl311.cpp:10 | a read succeeds exactly when the next reply carries the expected number of bytes; it returns them, consumes the reply and logs the attempt, as a refused read when it fails |
| Protocol.WaitingPolls | src/mpl311.cpp:22-28 | every read of a still-waiting run is a one-byte read of the polled register showing the old bit state |
| Protocol.WaitingCons | src/mpl311.cpp:22-28 | a poll followed by a run still waits exactly when that poll shows the old state and the run still waits |
| Protocol.KeepWaiting | src/mpl311.cpp:22-27 | a read that still shows the old state extends the waiting run |
| Protocol.StopWaiting | src/mpl311.cpp:24-25 | the first read showing the awaited state completes a poll within budget |
| Protocol.PollRunReads | src/mpl311.cpp:68-74 | a completed poll consists of reads only and contains no write |
| Protocol.JoinSurfaces | src/mpl311.cpp:10-18 | a step run after acknowledged transactions still reports BusError exactly when its last attempt was refused, with nothing attempted after a refusal |
| Protocol.MismatchWritesNothing | src/mpl311.cpp:10-14 | a device with the wrong identity receives no write |
| Protocol.ConfigWrites | src/mpl311.cpp:33-43 | the configuration of begin is two writes: CTRL_REG1, then PT_DATA_CFG |
| Protocol.InitSequenceFrom | src/mpl311.cpp:5-46 | identity read, then reset write, then reset poll, then the two configuration writes form the initialisation sequence |
| Protocol.ResetTimedOutFrom | src/mpl311.cpp:16-28 | after a good identity read, begin's trace is a timed-out one exactly when the reset poll spent its budget, and it is never an identity mismatch |
| Protocol.CycleWrites | src/mpl311.cpp:63-80 | a measurement cycle contains exactly one write |
| Protocol.CycleOnlyWriteIsTrigger | src/mpl311.cpp:76-79 | the only write of a cycle is its trigger |
| Protocol.CycleIsOrdered | src/mpl311.cpp:92-103 | in a cycle's flat log, the one write directly follows a CTRL_REG1 read with OST clear and writes that byte with OST set; the data read comes last, right after a STATUS read with PTDR set |
| Protocol.ReadTraceOf | src/mpl311.cpp:111-125 | a mode switch, present exactly when the recorded mode differs, followed by an ordered cycle, is a read with one write plus one for the switch, ending in the cycle's data read |
| Protocol.ReadTraceFrom | src/mpl311.cpp:136-149 | a mode switch followed by a valid cycle is a read, with one write plus one more when the mode was switched |
| Protocol.ReadTraceWrites | src/mpl311.cpp:113-115 | a read issues two writes when the recorded mode differs and one otherwise |
| Protocol.ReadTracksMode | include/libhal-mpl/mpl.hpp:106-107 | in a read, when every CTRL_REG1 read after the switch shows the required ALT bit, every CTRL_REG1 write carries the ALT bit of the required mode |
| Protocol.TimedOutAfterTrigger | src/mpl311.cpp:94-96 | a trigger written after a completed OST poll, followed by `budget` STATUS reads all showing PTDR clear, is a timed-out measurement |
| Protocol.TimedOutNotFailed | src/mpl311.cpp:94-96 | a timed-out measurement ends in an acknowledged transaction, so it is never a bus error |
| Protocol.OrderedNotTimedOut | src/mpl311.cpp:92-103 | a completed measurement cycle is never a timed-out measurement |
| Protocol.InitRecordsMode | src/mpl311.cpp:31-34 | the last CTRL_REG1 write of begin selects the altimeter, the mode begin records |
| Driver.ReadByte | src/mpl311.cpp:51-53 | a one-byte read consumes one reply; it succeeds exactly when that reply carries one byte, returning it and logging the read, and otherwise fails with BusError and logs the refused read |
| Driver.Poll | src/mpl311.cpp:66-74 | the polling loop as a function of the replies: read the register until the mask shows the awaited state, a read fails, or `budget` reads are spent; its properties are the Driver.Poll* lemmas below |
| Driver.PollBounded | src/mpl311.cpp:66-74 | a poll makes at most `budget` attempts and never reports a wrong device |
| Driver.PollReadsOnly | src/mpl311.cpp:66-74 | a poll writes nothing |
| Driver.PollSurfaces | src/mpl311.cpp:69 | a poll reports BusError exactly when its last read was refused, and reads nothing after a refusal |
| Driver.PollDone | src/mpl311.cpp:70-71 | a successful poll is a run of reads showing the old state ended by one showing the awaited state, within budget, and returns that last byte |
| Driver.PollFailed | src/mpl311.cpp:68-74 | a poll ended by a refused read had seen only the old state before it |
| Driver.PollTimeout | src/mpl311.cpp:68-74 | a poll times out exactly when `budget` reads all showed the old state |
| Driver.PollFacts | src/mpl311.cpp:22-28 | all of the poll properties above together |
| Driver.Reset | src/mpl311.cpp:16-28 | the software reset of begin: write RST, then poll CTRL_REG1 until RST clears; stated by Driver.ResetFacts |
| Driver.Configure | src/mpl311.cpp:30-43 | the two configuration writes of begin, stopping at a refused one; stated by Driver.ConfigureFacts |
| Driver.Init | src/mpl311.cpp:5-46 | begin: identity read, reset, configuration, each step only after the last succeeded; stated by the Driver.Init* lemmas |
| Driver.ResetFacts | src/mpl311.cpp:16-28 | the reset surfaces bus errors; success is the RST write then a completed poll; Timeout occurs exactly when the poll spent its budget; never a wrong device |
| Driver.ConfigureFacts | src/mpl311.cpp:30-43 | the configuration attempts the two writes in order and stops at the first refusal; success is both writes; any failure is BusError at the last attempt |
| Driver.InitSurfaces | src/mpl311.cpp:5-46 | begin reports BusError exactly when its last attempt was refused, and attempts nothing after a refusal |
| Driver.InitDone | src/mpl311.cpp:5-46 | begin succeeds only with the initialisation sequence on the bus after a completed reset; once the reset is done, only a bus error can stop it |
| Driver.InitMismatch | src/mpl311.cpp:12-14 | begin reports UnexpectedDevice exactly when its one transaction read an identity byte other than 0xC4 |
| Driver.InitTimeout | src/mpl311.cpp:20-28 | begin times out exactly when the reset was written and `budget` polls all showed RST set |
| Driver.InitFacts | src/mpl311.cpp:5-46 | all of the begin properties above together |
| Driver.InitSucceeds | src/mpl311.cpp:5-46 | begin succeeds exactly when no attempt was refused, the identity matched and the reset poll did not run out |
| Driver.SetMode | src/mpl311.cpp:48-61 | set_mode: read CTRL_REG1, then write it back with the ALT bit of the mode; stated by Driver.SetModeFacts |
| Driver.SetModeFacts | src/mpl311.cpp:48-61 | set_mode surfaces bus errors; success is the CTRL_REG1 read then the write of that byte with only ALT replaced; a failure is BusError with no acknowledged write |
| Driver.OneShot | src/mpl311.cpp:63-80 | initiate_one_shot: poll CTRL_REG1 until OST clears, then write the last byte read with OST set; stated by Driver.OneShotFacts |
| Driver.OneShotFacts | src/mpl311.cpp:63-80 | the trigger surfaces bus errors; success is a completed OST poll then the write of its last byte with OST set; a failure has no acknowledged write; Timeout occurs exactly when the OST poll spent its budget |
| Driver.CheckReady | src/mpl311.cpp:82-90 | one STATUS read; it succeeds exactly when the reply carries one byte, and the result is true exactly when PTDR is set in it; a failure is BusError |
| Driver.AwaitReady | src/mpl311.cpp:95-96 | the data-ready wait of the reads: call check_data_ready_flag until it reports ready or fails, at most `budget` times; stated by Driver.AwaitReadyIsPoll |
| Driver.AwaitReadyIsPoll | src/mpl311.cpp:95-96 | waiting until check_data_ready_flag reports ready, at most `budget` times, has the same outcome, trace and remaining replies as polling STATUS until PTDR is set |
| Driver.Measure | src/mpl311.cpp:94-103 | one measurement: trigger, wait for PTDR, read the data registers; stated by the Driver.Measure* lemmas |
| Driver.MeasureSurfaces | src/mpl311.cpp:94-103 | a measurement reports BusError exactly when its last attempt was refused, and never a wrong device |
| Driver.MeasureDone | src/mpl311.cpp:94-103 | a successful measurement is an ordered cycle whose last read is the data read, holding the `n` bytes returned |
| Driver.MeasureTimeoutShown | src/mpl311.cpp:94-96 | a measurement that reports Timeout shows in its trace which of its two polls ran out |
| Driver.MeasureTimeout | src/mpl311.cpp:94-96 | a measurement reports Timeout exactly when the OST poll ran out, or the trigger was written and the PTDR poll then ran out |
| Driver.MeasureSucceeds | src/mpl311.cpp:94-103 | a measurement succeeds exactly when no attempt was refused and neither poll ran out |
| Driver.MeasureFacts | src/mpl311.cpp:94-103 | all of the measurement properties above together: errors surface, never a wrong device, an ordered cycle on success, Timeout exactly when a poll ran out, and success exactly when nothing was refused and no poll ran out |
| Driver.ModeAfter | src/mpl311.cpp:113-114 | the mode recorded after a pressure or altitude read: the required one once set_mode has succeeded, the old one otherwise; stated by Driver.ReadInModeRecords |
| Driver.ReadInMode | src/mpl311.cpp:111-125 | a pressure or altitude read: set_mode when the recorded mode differs, then one measurement; stated by the Driver.ReadInMode* lemmas |
| Driver.ReadInModeSurfaces | src/mpl311.cpp:111-125 | a pressure or altitude read reports BusError exactly when its last attempt was refused, and never a wrong device |
| Driver.ReadInModeRecords | src/mpl311.cpp:113-114 | after a successful read the recorded mode is the required one |
| Driver.ReadInModeDone | src/mpl311.cpp:111-125 | a successful read is a read trace, with one write plus one for a mode switch, and returns the `n` bytes of its last read |
| Driver.ReadInModeKeepsMode | include/libhal-mpl/mpl.hpp:106-107 | when the device echoes the mode in CTRL_REG1, every CTRL_REG1 write of a successful read carries the mode recorded afterwards |
| Driver.ReadInModeTimeout | src/mpl311.cpp:111-125 | a pressure or altitude read reports Timeout exactly when, after the mode switch it needs, its measurement timed out |
| Driver.ReadInModeSucceeds | src/mpl311.cpp:111-125 | a pressure or altitude read succeeds exactly when no attempt was refused and no poll ran out |
| Driver.ReadInModeFacts | src/mpl311.cpp:111-125 | all of the read properties above together, including Timeout exactly after a switch and a timed-out measurement, and success exactly when nothing was refused and no poll ran out |
| Driver.PollAnswered | src/mpl311.cpp:68-71 | a poll whose first reply already shows the awaited state ends there, with that byte |
| Driver.InitAnswered | src/mpl311.cpp:5-46 | begin succeeds on a device that acknowledges every step and clears RST by the first poll, with the initialisation transactions on the bus and no reply left |
| Driver.MeasureAnswered | src/mpl311.cpp:94-103 | a measurement succeeds on a device that acknowledges every step, shows OST clear and PTDR set at the first polls, and returns the data bytes it sent |
| Mpl.Session.constructor | include/libhal-mpl/mpl.hpp:89 | binds the bus, the register map and the poll budget |
| Mpl.Session.Create | include/libhal-mpl/mpl.hpp:50 | does what begin does on the replies it meets; a session is returned exactly when begin succeeds, i.e. exactly when nothing was refused, the identity matched and the reset did not time out; the session is fresh, in altimeter mode, with the initialisation sequence on the bus; bus errors surface; UnexpectedDevice and Timeout occur exactly as for begin |
| Mpl.Session.Init | src/mpl311.cpp:5-46 | returns, logs and consumes exactly what Driver.Init computes; records altimeter exactly when the reset completed; surfaces bus errors; success is the initialisation sequence, and happens exactly when nothing was refused, the identity matched and the reset did not time out; UnexpectedDevice and Timeout occur exactly on a wrong identity and an exhausted reset poll |
| Mpl.Session.SoftwareReset | src/mpl311.cpp:16-28 | returns, logs and consumes exactly what Driver.Reset computes; surfaces bus errors; Timeout exactly when the RST poll spent its budget |
| Mpl.Session.Configure | src/mpl311.cpp:30-43 | records altimeter, then returns, logs and consumes exactly what Driver.Configure computes: the two configuration writes, stopping at a refused one, whose refusal surfaces as BusError |
| Mpl.Session.ReadRegister | src/mpl311.cpp:51-53 | returns, logs and consumes exactly what Driver.ReadByte computes: the byte of an acknowledged one-byte reply, or BusError with the refused read logged |
| Mpl.Session.PollUntilClear | src/mpl311.cpp:66-74 | the polling loop returns, logs and consumes exactly what Driver.Poll computes for a wait on a clear mask |
| Mpl.Session.SetMode | src/mpl311.cpp:48-61 | returns, logs and consumes exactly what Driver.SetMode computes; records the mode exactly on success; the write carries the mode's ALT bit; a failure is BusError with no acknowledged write |
| Mpl.Session.InitiateOneShot | src/mpl311.cpp:63-80 | returns, logs and consumes exactly what Driver.OneShot computes; success is a completed OST poll then the trigger; a failure has no acknowledged write; Timeout exactly on an exhausted OST poll |
| Mpl.Session.CheckDataReady | src/mpl311.cpp:82-90 | returns, logs and consumes exactly what Driver.CheckReady computes: whether PTDR is set in the one STATUS byte read, or BusError with the refused read logged |
| Mpl.Session.AwaitDataReady | src/mpl311.cpp:95-96 | the data-ready loop returns, logs and consumes exactly what Driver.Poll computes for STATUS awaiting PTDR |
| Mpl.Session.Measure | src/mpl311.cpp:94-103 | returns, logs and consumes exactly what Driver.Measure computes; surfaces bus errors; success is a valid cycle whose data read gives the result; Timeout exactly when the OST poll or the PTDR poll ran out; success exactly when nothing was refused and no poll ran out |
| Mpl.Session.ReadTemperature | src/mpl311.cpp:92-109 | the result is the Celsius conversion of Driver.Measure's bytes, and its error otherwise; surfaces bus errors; success is a valid cycle, and happens exactly when nothing was refused and no poll ran out; Timeout exactly when a poll ran out; the mode is unchanged and, when the device echoes it, kept by the trigger |
| Mpl.Session.ReadPressure | src/mpl311.cpp:111-134 | the result is the Pascal conversion of Driver.ReadInMode's bytes for barometer, and its error otherwise; the mode afterwards is Driver.ModeAfter's; surfaces bus errors; success is a read trace with one write plus one for a switch, ending in a valid cycle, and happens exactly when nothing was refused and no poll ran out; Timeout exactly after a timed-out measurement; with an echoing device every CTRL_REG1 write carries the recorded mode |
| Mpl.Session.ReadAltitude | src/mpl311.cpp:136-158 | the result is the meter conversion of Driver.ReadInMode's bytes for altimeter, and its error otherwise; the mode afterwards is Driver.ModeAfter's; surfaces bus errors; success is a read trace with one write plus one for a switch, ending in a valid cycle, and happens exactly when nothing was refused and no poll ran out; Timeout exactly after a timed-out measurement; with an echoing device every CTRL_REG1 write carries the recorded mode |
| Mpl.Session.ReadInMode | src/mpl311.cpp:113-125 | returns, logs and consumes exactly what Driver.ReadInMode computes; the mode afterwards is switched exactly when set_mode succeeded; success is a read trace ending in a valid cycle, and happens exactly when nothing was refused and no poll ran out; Timeout exactly when the measurement after the switch timed out; with an echoing device every CTRL_REG1 write carries the recorded mode |
| Mpl.Session.SetSeaPressure | src/mpl311.cpp:165-178 | one write of the sea-pressure payload; succeeds exactly when the device acknowledges it, and the attempt is logged either way |
| Mpl.Session.SetAltitudeOffset | src/mpl311.cpp:184-188 | one write of the offset payload; succeeds exactly when the device acknowledges it, and the attempt is logged either way |

## Left out

- Transport details are left out: the I2C device address, the `hal::never_timeout()` policy, and the bus's own error kinds (all are one `BusError`).
- The device itself is not simulated. Its answers come from a scripted reply list, so nothing states that OST self-clears or that data arrive; the lemmas that name a device which answers fix its replies explicitly.
- The 10 ms `hal::delay` between polls and the clock are left out. Time does not appear in the model.
- Floating point: conversions are exact `real` divisions, so float rounding is not modelled.
- The register addresses and bit masks are not modelled as values. They are defined in `libhal-mpl311/mpl311.hpp`, which is not part of this model. The session takes them as a `RegisterMap` parameter. Only 0xC4, bit 7 (ALT) and bit 1 (OST) are literal in the source.
- Mpl.Session.PollUntilClear: the source's unbounded `while (1)` loops are replaced by at most `budget` reads ending in `Timeout`. An infinite wait is not modelled. The method's contract is its tie to Driver.Poll; the poll properties are stated by Driver.PollFacts, which its callers use.
- Mpl.Session.AwaitDataReady: bounded by `budget` in the same way, and stated through Driver.Poll in the same way. A failing STATUS read ends the wait with `BusError` instead of being read as "not ready".
- Mpl.Session.ReadPressure: an error from `set_mode` or `initiate_one_shot` is propagated. In the source their results are discarded.
- Mpl.Session.ReadAltitude: as for ReadPressure, an error from `set_mode` or `initiate_one_shot` is propagated.
- Mpl.Session.ReadTemperature: as for ReadPressure, an error from `initiate_one_shot` is propagated.
- Mpl.Session.SetMode: the default argument `mode = BAROMETER_M` of `set_mode` is not modelled; the mode is always passed, as both callers in the source pass one.
- Mpl.Session.SetSeaPressure: requires -2 < pressure < 131072 Pa, the range in which `sea_level_pressure / 2`, truncated toward zero, fits `uint16_t`. Outside it the C++ conversion is undefined.
- Conversion.SeaPressurePayload: the same range requirement as SetSeaPressure.
- Conversion.AltitudeRaw: the reading is unsigned, as the code computes it. The device's signed Q16.4 altitude format is not modelled.
- C++ access control is not modelled: the private constructor and `init` are reachable here.
- `sensor_mode` against the ALT bit: this is stated per operation, not as a class invariant over the bus log. Begin's last CTRL_REG1 write selects the altimeter it records (Protocol.InitRecordsMode); set_mode writes the ALT bit of the mode it records (Mpl.Session.SetMode). A read keeps that bit only if the device echoes it, because the trigger copies the byte the device returned (Driver.ReadInModeKeepsMode). Begin records the altimeter (line 31) before the write that sets ALT (line 34). So after a refused configuration write the two differ, but then `create` fails and hands out no session.
