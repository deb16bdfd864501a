# PhytoGuard dashboard: Modbus decoding and sample history, in Dafny

PhytoGuard's server (`app.py`) polls a soil sensor over a serial line using Modbus RTU.
It sends the fixed request `QUERY_FRAME`, reads back a 19-byte Read Holding Registers
response and decodes it into seven readings (humidity, temperature, conductivity, pH,
nitrogen, phosphorus, potassium). Each decoded sample goes into a bounded history deque,
together with a sequence counter that browser streams wait on; `/history` serves the
latest 500 entries.

This project models that core:

- `crc.dfy`, module `Crc16`: `_crc16_modbus`, the CRC-16 of the MODBUS over Serial Line
  Specification V1.02 (section 6.2.2). A reference definition by recursion
  (`ShiftStep`, `Shifts`, `AbsorbByte`, `RegisterAfter`, `Crc`) and the nested-loop method
  `ComputeCrc` proved equal to it. Python's register is an unbounded integer. It is
  modelled as a 32-bit vector, and every function proves that it stays below 0x10000.
  So nothing is ever truncated, and the final `& 0xFFFF` removes nothing. The residue
  property of the Modbus CRC is proved too: a message followed by its CRC, low byte
  first, has CRC 0.
- `modbus.dfy`, module `Modbus`: `QUERY_FRAME` and `_parse_frame`. `Parse` is the
  specification: length, then CRC, then function code, then byte count, each failure a
  `ParseError`. The method `ParseFrame` is the source's code, with its register loop, and
  is proved equal to `Parse`. `EncodeResponse` builds the response a sensor sends for a
  reading. `RoundTrip` and `AcceptedFrameIsEncoding` prove it is the exact inverse of
  `Parse` on accepted frames. Bytes are `bv8`, registers are the raw `bv16` words, and
  `Word` proves that `(hi << 8) | lo` is `hi * 256 + lo`.
- `history.dfy`, module `SampleHistory`: the class `History` holds the deque
  `deque(maxlen=HISTORY_MAX)` and the counter `_last_seq`. Its invariant says the deque
  is the latest `capacity` records ever appended, in order. It also says the counter
  equals the number of appends. `Recent` is `list(history)[-500:]`.
- `worker.dfy`, module `Worker`: one iteration of `_serial_worker` on a serial port,
  `PollStep`. It appends exactly when the 19-byte response parses, and otherwise leaves
  the history and counter unchanged. A rejected 19-byte frame raises a `ValueError`. The
  handler at app.py:144-151 catches it and, when SIMULATE_ON_ERROR is on (the default),
  closes the port and switches to simulation. After that, every later iteration appends
  simulated samples. So a run of `PollStep`s on one port models the program only while
  every 19-byte response parses, or while falling back is off. The program falls back to
  simulation mid-run, not only when the port fails to open at startup. The model follows
  the code here.

## Model

| member | source | states |
|---|---|---|
| `Crc16.ShiftStep` | app.py:41-44 | one shift step keeps the register below 0x10000 |
| `Crc16.Shifts` | app.py:40-44 | eight (any number of) shift steps keep the register below 0x10000 |
| `Crc16.AbsorbByte` | app.py:39-44 | XORing a byte into the register and shifting eight times keeps it below 0x10000 |
| `Crc16.RegisterAfter` | app.py:37-44 | the register never leaves 16 bits whatever the data, so Python's unbounded integer and the model agree |
| `Crc16.Crc` | app.py:36-45 | the final `& 0xFFFF` removes nothing; the CRC of empty input is 0xFFFF; the result is in 0..0xFFFF |
| `Crc16.ComputeCrc` | app.py:36-45 | the nested byte/bit loops compute exactly the reference CRC |
| `Crc16.RegisterAfterConcat` | app.py:38-44 | absorbing `a` then `b` equals absorbing `a + b` |
| `Crc16.RegisterAfterSingle` | app.py:38-44 | absorbing a one-byte message is one outer-loop iteration |
| `Crc16.ShiftsClearLowByte` | app.py:40-44 | with the low byte clear, eight shifts never XOR the polynomial and move the high byte down |
| `Crc16.AbsorbOwnLowByte` | app.py:38-44 | absorbing a register's own low byte leaves its high byte |
| `Crc16.AbsorbOwnHighByte` | app.py:38-44 | absorbing that high byte then leaves zero |
| `Crc16.AbsorbOwnBytes` | app.py:38-44 | absorbing a register's low then high byte clears it |
| `Crc16.CrcResidue` | app.py:36-45 | any message followed by its CRC, low byte first as line 52 reads it, has CRC 0 |
| `Modbus.Word` | app.py:65 | the bitwise OR of `hi << 8` and `lo` is `hi * 256 + lo` (also how line 52 reads the CRC field) |
| `Modbus.WordValue` | app.py:65 | the arithmetic form of a word has the integer value of its bytes |
| `Modbus.BytesOfWord` | app.py:52 | a word's high and low bytes are the bytes it was formed from |
| `Modbus.WordOfBytes` | app.py:52 | a word is rebuilt from its high and low bytes |
| `Modbus.Reading.Registers` | app.py:66-75 | a reading has exactly seven registers, in wire order |
| `Modbus.ReadingOf` | app.py:66-75 | the reading built from an address and seven registers gives them back |
| `Modbus.Words` | app.py:61-65 | pairing bytes into words halves the length |
| `Modbus.WordAt` | app.py:61-65 | word i of a byte string is the big-endian pair at bytes 2i, 2i+1 |
| `Modbus.WordsElements` | app.py:61-65 | the same, for every word at once |
| `Modbus.FrameRegisters` | app.py:61-65 | register i of a 19-byte frame is the word formed by bytes 3+2i and 4+2i |
| `Modbus.Parse` | app.py:47-75 | every frame not 19 bytes long is rejected as a bad length, before any indexing; a 19-byte frame is reported as a CRC mismatch exactly when the bitwise OR of `frame[17]` and `frame[18] << 8` differs from the CRC of bytes 0..16; a frame is accepted exactly when the length, CRC, function code 0x03 and byte count 14 all hold; then the address is byte 0 and register i is the word of bytes 3+2i, 4+2i |
| `Modbus.ParsedRegisterValues` | app.py:61-67 | on success `sensor_id == frame[0]` and register i is `frame[3+2i]*256 + frame[4+2i]`, in 0..65535 |
| `Modbus.ParseFrame` | app.py:47-75 | the source's code, with its register-appending loop, returns exactly what `Parse` specifies for every frame |
| `Modbus.WordBytes` | app.py:61-65 | splitting words into bytes doubles the length (the inverse of the register loop) |
| `Modbus.WordBytesOfWords` | app.py:61-65 | splitting the decoded words gives back the data bytes |
| `Modbus.WordsOfWordBytes` | app.py:61-65 | decoding split words gives back the words |
| `Modbus.EncodeResponse` | app.py:47-67 | the response built for a reading is 19 bytes long |
| `Modbus.RoundTrip` | app.py:47-67 | for any address and seven registers, the encoded response passes all four checks and decodes to the same address and registers |
| `Modbus.AcceptedFrameIsEncoding` | app.py:47-67 | every accepted frame is the encoding of what it decodes to, so decoding loses nothing |
| `Modbus.QueryFrameChecksum` | app.py:25-26 | `QUERY_FRAME` addresses sensor 1 with function 0x03, start 0 and count 7 (hence 14 data bytes in the reply), and its last two bytes are the CRC of the first six, low byte first: 0x0804 |
| `SampleHistory.Latest` | app.py:178 | the last `min(len, n)` elements, in order: a suffix of that length |
| `SampleHistory.LatestAppend` | app.py:139-141 | appending to the bounded window of `s` gives the bounded window of `s + [x]` |
| `SampleHistory.LatestOfLatest` | app.py:178 | a window of a window is the narrower window |
| `SampleHistory.History.constructor` | app.py:30-31 | a new history is empty, its counter is 0, and it keeps the invariant |
| `SampleHistory.History.Append` | app.py:139-142 | appending keeps the length at most the capacity and drops the oldest entry when at capacity, so the contents stay the latest `min(n, HISTORY_MAX)` records appended, in order; the counter rises by exactly 1; the newest entry is the one appended (what the stream sends as `history[-1]`) |
| `SampleHistory.History.Recent` | app.py:176-178 | `/history` returns the last `min(500, len)` entries, oldest first |
| `SampleHistory.RecentIsLatestAppended` | app.py:178 | those are the latest `min(500, HISTORY_MAX)` records ever appended, in append order |
| `Worker.PollStep` | app.py:113-151 | a poll appends exactly when the response parses (so never on a short read or a rejected frame); if it appends, the counter rises by one and the new sample carries the decoded reading; otherwise the history and counter are unchanged; the port stays open exactly when the read was short, the frame parsed, or falling back to simulation is off, so a rejected 19-byte frame with SIMULATE_ON_ERROR on switches the worker to simulation |

## Left out

- Flask routing, templates, `jsonify`, `/status` and the event-stream text framing
  (app.py:161-193) are web plumbing. The stream's payload, `history[-1]`, is covered by
  `History.Append` stating that the newest entry is the one just appended.
- Serial I/O (opening the port, `write`, `read`, `reset_input_buffer`, `close`) and every
  `time.sleep` are hardware and clock effects. `PollStep` takes the bytes read as a parameter.
- The `threading.Condition`, `wait_for`, `notify_all`, `start_worker_once` and the daemon
  thread exist for concurrency. The append and the counter update are one atomic step here,
  as they are under the lock.
- The program has no per-subscriber queues and no subscriber registry. Live delivery is
  only the condition variable plus `_last_seq`, so no broadcast hub is modelled.
- The simulated generator (app.py:92-136) depends on `random` and floating-point drift.
  The history class is generic in its record type, so it holds simulated records the same
  way, but the generator itself is not modelled.
- Modbus.Reading: keeps humidity, temperature and pH as raw registers in tenths. The
  `/ 10.0` float scaling at app.py:68-71 is not modelled. Registers are unsigned, as the
  source decodes them.
- Worker.Sample: the timestamp is a parameter. `datetime.utcnow()` is a clock.
- The environment-variable parsing of the configuration (app.py:19-23) is library parsing.
  `HISTORY_MAX` is the history's `capacity` (7200 when unset), and SIMULATE_ON_ERROR is
  `PollStep`'s `fallbackToSim`.
- The exception handler (app.py:144-152) also catches exceptions raised by the serial
  library's `write` and `read`. Those are not modelled; only the `ValueError` from a
  rejected frame is, through `PollStep`'s `stillSerial`. The flag `_is_simulating` is
  reported only by `/status`, and `stillSerial` is its negation. The iterations after the
  switch run the simulated generator, which is not modelled.
