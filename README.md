# SGP30 driver: checksum, frame codec and command exchanges

This project models the protocol layer of a Raspberry Pi driver for the
Sensirion SGP30 gas sensor, which talks to the chip over I²C at address
0x58. The model covers four parts:

- **Checksum engine** (`crc8.dfy`, module `Crc8`; `crc8_steps.dfy` and
  `crc8_vector.dfy`, modules `Crc8Steps` and `Crc8Vector`). The driver's CRC-8 uses
  polynomial 0x31 and initial value 0xFF, with no reflection and no final
  XOR. The driver keeps the register in an unbounded integer. Inside the
  loops it only tests bit 7 and never masks; it masks to eight bits once,
  on return. The model keeps that unbounded register as a `nat`, with a
  bit-wise `Xor` on naturals of any width. It proves that the driver's
  result equals the standard CRC-8 whose 8-bit register is masked after
  every shift (`StandardCrc8`, catalogued as CRC-8/NRSC-5). It also proves
  the sensor's published example: the checksum of 0xBE 0xEF is 0x92.
- **Frame codec** (`frame.dfy`, module `Frame`). A response frame is a run
  of 3-byte groups. Each group is a big-endian unsigned 16-bit word
  followed by the checksum of its two bytes. There are three decoding
  policies, and the model keeps them apart:
  - the serial number is all-or-nothing over three groups;
  - a measurement checks CO2 and VOC independently, and raises a warm-up
    flag from the unpacked words;
  - the raw H2/ethanol signals are never checked.

  The driver returns Python's `False` as its failure value, and in Python
  `False` equals 0. The model uses tagged results instead: `Field` is
  `Valid(w)` or `ChecksumInvalid`, and `SerialResult` is `Ok(words)` or
  `Fail`.
- **Command driver** (`driver.dfy`, module `Driver`). A `Bus` object
  records the events it carries in a `trace` field. There are three kinds
  of event: `Write(addr, cmd, args)`, `Sleep(ms)` and `Read(addr, reg, n)`.
  The bytes the chip answers with are a parameter of each operation. Each
  of `GetSerial`, `GetMeasurement` and `GetRawMeasurement` appends, in
  order:
  - the write of the first opcode byte, with the second byte as its
    argument list;
  - a pause of the command's fixed settle time;
  - a read of the response length from register 0.

  Each also returns what the codec makes of the response.
- **Warm-up sequence** (`InitSensor`). It sends one init command and
  pauses 10 ms. It then runs twenty measurement exchanges, each followed
  by a one-second pause.

Sleep durations are whole milliseconds: `sleep(0.1)`, `0.12`, `0.25`,
`0.01` and `1` become 100, 120, 250, 10 and 1000 ms.

Points where the code behaves in a way worth stating:

- The serial number is all-or-nothing. `getSerial` returns failure at the
  first group whose checksum is wrong and never returns a partial list
  (sgp30.py:31-40, `SerialAllOrNothing`).
- Take a frame whose CO2 bytes read 400 (0x01 0x90) with a wrong checksum
  and whose VOC bytes read 0. The code marks CO2 invalid and VOC valid,
  and still sets `warmup`. The flag is computed from the words as
  unpacked, which the checksum checks do not overwrite (sgp30.py:101-112,
  `WarmupIgnoresChecksum`).
- The docstring of `initSensor` speaks of about 15 s. The pauses alone add
  up to 22410 ms: 10 ms, plus 20 rounds of 120 ms and 1000 ms
  (`WarmupTraceShape`).

## Model

| member | source | states |
|---|---|---|
| `Crc8.Crc` | sgp30.py:160-181 | The nested loop returns exactly `Checksum(data)`, the unmasked register fold masked once to 0..255, and `Init` (0xFF) for an empty input. |
| `Crc8.ChecksumIsStandardCrc8` | sgp30.py:172-181 | For every input, masking the register once at the end gives the same byte as the standard CRC-8 (poly 0x31, init 0xFF), which masks to 8 bits after every shift. |
| `Crc8.XorLowBits` | sgp30.py:175-178 | The low k bits of an unbounded XOR depend only on the low k bits of its operands, so the driver's unmasked register never lets high bits leak into the result. |
| `Crc8Vector.ChecksumOfBeef` | sgp30.py:160-181 | The driver's checksum of the two bytes 0xBE 0xEF is 0x92, the example Sensirion publishes for the SGP30. |
| `Crc8.ShiftsLowByte` | sgp30.py:176-180 | After any number of passes of the inner loop, the low byte of the unmasked register equals the masked register. |
| `Frame.BigEndian` | sgp30.py:33 | The big-endian word of two bytes has exactly those bytes as its high and low byte. |
| `Frame.DecodeEncodedGroup` | sgp30.py:95-106 | A group that carries the checksum of its own bytes decodes to `Valid` of the word it was made from. |
| `Frame.CorruptedGroupInvalid` | sgp30.py:102-106 | A group whose third byte differs from the checksum of its first two is reported `ChecksumInvalid`. |
| `Frame.ValidExactlyWhenEncoded` | sgp30.py:95-106 | A group decodes as valid if and only if its three bytes are the encoding of its own word. |
| `Frame.FieldDependsOnlyOnItsGroup` | sgp30.py:95-106 | The decoding of field g depends only on bytes 3g..3g+2 of the frame. |
| `Frame.DecodeSerial` | sgp30.py:29-40 | The loop returns `Ok` only if all three groups pass, and then returns the three words in order. Otherwise it returns `Fail`, with no partial list. |
| `Frame.SerialAllOrNothing` | sgp30.py:32-36 | A single bad group, wherever it is, fails the whole serial number. |
| `Frame.SerialOfEncoded` | sgp30.py:29-40 | Three correctly framed words decode to exactly those three words. |
| `Frame.Measurement.constructor` | sgp30.py:79-112 | CO2 and VOC are each `Valid(word)` exactly when their own checksum holds. `warmup` holds exactly when the unpacked words are 400 and 0. |
| `Frame.Co2FiveHundredFrame` | sgp30.py:95-112 | The frame 0x01 0xF4 crc 0x00 0x00 crc decodes to CO2 = 500 and VOC = 0, both valid, and is not a warm-up reading. |
| `Frame.CorruptCo2ChecksumOnly` | sgp30.py:101-106 | Corrupting the CO2 checksum byte marks CO2 invalid and leaves the VOC field unchanged. |
| `Frame.WarmupIgnoresChecksum` | sgp30.py:108-112 | A frame reading 400/0 with a bad CO2 checksum has CO2 invalid and VOC valid, and still counts as warm-up. |
| `Frame.WarmupOnlyForDefaults` | sgp30.py:95-112 | A frame is a warm-up reading if and only if its bytes 0, 1, 3 and 4 are 0x01 0x90 0x00 0x00, whatever its two checksum bytes hold. |
| `Frame.RawIgnoresChecksumBytes` | sgp30.py:152-157 | The raw signals are `(data[0]*256+data[1], data[3]*256+data[4])`, whatever bytes 2 and 5 hold. |
| `Frame.RawAgreesWithCheckedFields` | sgp30.py:152-157 | Where a group's checksum holds, its raw word equals the value of the checked field. |
| `Driver.ResponseLength` | sgp30.py:20-150 | Every command reads back a whole number of 3-byte groups, at most nine bytes. Only the init command reads nothing. |
| `Driver.Bus.constructor` | sgp30.py:8-11 | A freshly opened bus has carried no events. |
| `Driver.Bus.WriteBlock` | sgp30.py:25 | A block write appends exactly one `Write` event. |
| `Driver.Bus.Pause` | sgp30.py:26 | A sleep appends exactly one `Sleep` event. |
| `Driver.Bus.ReadBlock` | sgp30.py:27 | A block read appends exactly one `Read` event and returns the chip's bytes. |
| `Driver.GetSerial` | sgp30.py:13-40 | It appends `Write(0x58, 0x36, [0x82])`, `Sleep(100)` and `Read(0x58, 0, 9)`, and returns the all-or-nothing decoding of the 9 bytes. |
| `Driver.GetMeasurement` | sgp30.py:115-130 | It appends `Write(0x58, 0x20, [0x08])`, `Sleep(120)` and `Read(0x58, 0, 6)`, and returns a fresh measurement with per-field validity and the warm-up flag. |
| `Driver.GetRawMeasurement` | sgp30.py:133-157 | It appends `Write(0x58, 0x20, [0x50])`, `Sleep(250)` and `Read(0x58, 0, 6)`, and returns both raw words without any checksum gate. |
| `Driver.InitSensor` | sgp30.py:43-62 | It appends the init exchange `Write(0x58, 0x20, [0x03])` and `Sleep(10)`, then twenty rounds of a measurement exchange followed by `Sleep(1000)`. |
| `Driver.ExchangeKeepsDiscipline` | sgp30.py:25-27 | Appending any command exchange keeps every read right after a write to the same address and a pause. |
| `Driver.PauseKeepsDiscipline` | sgp30.py:62 | Appending a pause keeps that discipline. |
| `Driver.WriteBeforeRead` | sgp30.py:20-27 | Every reading command is exactly its write, then its settle pause, then its read: the write comes strictly before the read. |
| `Driver.WarmupCyclesShape` | sgp30.py:58-62 | Round k of the warm-up is exactly write 0x20/0x08, 120 ms, a read of 6 bytes, then 1000 ms. |
| `Driver.WarmupCyclesDiscipline` | sgp30.py:58-62 | The warm-up rounds keep the read discipline. |
| `Driver.WarmupCyclesWrites` | sgp30.py:58-62 | The warm-up rounds write only the measurement command, once per round. |
| `Driver.WarmupCyclesSleep` | sgp30.py:58-62 | Each warm-up round pauses 1120 ms in all. |
| `Driver.WarmupCommands` | sgp30.py:49-62 | The warm-up issues one init command and then one measurement command per round, and no other command. |
| `Driver.WarmupTraceShape` | sgp30.py:49-62 | The warm-up trace is the init write and 10 ms, then per round write, 120 ms, read of 6 and 1000 ms. It keeps the read discipline. With 20 rounds it is 82 events and 22410 ms of pauses. |
| `Driver.OperationsKeepDiscipline` | sgp30.py:13-157 | Every driver operation, appended to a trace that keeps the read discipline, yields a trace that still keeps it. |

## Left out

- The I²C transport (`smbus.SMBus` opened on channel 1, `write_i2c_block_data`, `read_i2c_block_data`) is foreign hardware. It is modelled only as trace events, and the bytes each read returns are a parameter.
- Transport failures are not modelled. In the source they raise exceptions that the driver does not handle.
- Blocking with `time.sleep` and its floating-point seconds is not modelled. Each sleep is one `Sleep` event in whole milliseconds.
- Terminal output is left out because it is display only: the "Checksum error" message, the warm-up progress bar and "Ready".
- The `struct` and `bytearray` mechanics are replaced by explicit big-endian arithmetic on bytes. The unused `statistics` import and `setup.py`, which is packaging only, are not part of this model.
- The decoders require at least 9 (serial) or 6 (measurement, raw) bytes. In the source `Measurement` and `getRawMeasurement` unpack both groups before any check, so they raise on fewer than 6 bytes (`struct.unpack_from`, sgp30.py:95-96, 154-155). `getSerial` raises only when its loop reaches a group the buffer does not hold, and returns `False` first if an earlier group fails its checksum (sgp30.py:32-36). The bus always returns the requested length, so no caller passes a shorter buffer.
- Byte values outside 0..255 are excluded by the `Byte` type. In the source `bytearray` rejects them.
- The warm-up loop discards each measurement, as the source does.
