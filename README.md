# Solarman Deye integration, modelled in Dafny

This project models the core of a Home Assistant integration for a Deye hybrid
inverter. The integration reaches the inverter through a Solarman data logger, in
one of two ways:

- **push mode**: the logger forwards Solarman V5 frames to a small TCP server;
- **poll mode**: the integration reads the inverter's input registers through the
  logger.

The model covers the byte-level and register-level logic on both paths and the
small amount of state that joins them:

- **V5 frame codec** (`v5_frames.dfy`, module `V5Frames`). `ParseV5Frames` scans
  a read for `0xA5`-started frames. It checks each frame's little-endian length,
  its `0x15` end marker and its mod-256 sum checksum. A bad frame makes it resync
  one byte later, and an incomplete frame ends the scan. `BuildV5Ack` builds the
  16-byte acknowledgement. Each method is proved equal to a specification function
  (`ParsedFrames`, `AckFrame`). Lemmas then prove three things about those
  functions: the accepted spans are in order and never overlap, every frame passed
  its checks, and an acknowledgement parses back to exactly one frame.
- **Push payload** (`push_payload.dfy`, module `PushPayload`). A data report's
  payload holds a 15-byte prefix and then a register-read response, as laid out in
  sections 6.3 and 6.4 of the Modbus Application Protocol Specification V1.1b3.
  Its words are big-endian and no CRC is checked. The start register is guessed
  from the word count. Any function code other than 0x03 or 0x04 falls back to a
  raw dump starting at register 0.
- **Push server routing** (`server.dfy`, module `V5Server`). Every decoded frame is
  acknowledged. Its registers are delivered to the coordinator's pushed slot only
  when three things hold: the serial matches, the type is `0x42`, and the map is
  non-empty. A read that cannot be scanned ends the connection.
- **Register tables** (`registers.dfy`, module `Registers`). The rows of `const.py`
  and `READ_BLOCKS`, with lemmas about block coverage, the 32-bit register pairs
  and the battery placeholder row.
- **Register decoder** (`decoder.dfy`, module `RegisterDecoder`). `_signed`,
  `_signed32` and `_parse`. It covers the generic scaled readings, the battery
  temperature offset, the 32-bit totals, the running-state and grid texts, and
  the CO2 and battery-cycle keys. Lemmas state for each output key exactly when it
  is present and what it holds.
- **Coordinator** (`coordinator.dfy`, module `CoordinatorState`). A class with
  these fields: the connection flag, the device-info latch, the device type, the
  firmware version, the single pushed slot and the data of the last update. Its
  methods cover the three-attempt retry loop that merges `READ_BLOCKS`, the
  read-once device info, and the update cycle. The update cycle prefers pushed
  data and turns a first failed poll into an empty result.
- **Diagnostics** (`diagnostics.dfy`, module `Diagnostics`). It covers these steps:
  - redacting the serial number;
  - labelling the holding registers, block by block, skipping blocks whose read
    failed;
  - translating enumerations, appending units and folding the six time-of-use
    slots into one text each;
  - assembling the diagnostics document.
- **Discovery** (`discovery.dfy`, module `Discovery`). The parse of one logger
  reply to the discovery broadcast: Python's `str.strip`, `str.split(",")` and
  `int()`. Also the list of devices in arrival order.

Shared definitions are in `common.dfy` (module `Common`): the option and result
types, bytes and words, register maps and decimal texts.

The model does not cover:

- the logger client (pysolarmanv5), which becomes a scripted oracle of what each
  read returns;
- sockets and timers;
- the Home Assistant framework.

Where the code and its documentation disagree, the model follows the code:

- **Unconsumed bytes are dropped.** Each `reader.read` is scanned on its own, so
  the bytes of a frame split across two reads are lost. The documentation says
  they are kept (`TruncatedAckYieldsNothing`).
- **A corrupted length byte can hide later frames.** A start byte whose claimed
  size runs past the read stops the scan, so the valid frames after it in the same
  read are lost. The documentation says a corrupted frame never loses later frames
  (`CorruptLengthHidesNextFrame`).
- **A short frame ends the connection.** A frame that passes its end and checksum
  checks but whose length field is below 7 makes header extraction raise. The
  handler catches the exception and closes the connection. The documentation says
  frame corruption never ends the connection (`V5Frames.ScanError`,
  `FailedScanEndsSession`).
- **A poll can leave its client connected.** `_read_registers` returns on success with
  its client still open, although its documentation says it disconnects. Only the first
  successful poll is followed by the device-info read, which disconnects. The update
  cycle keeps this behaviour (`Coordinator.Poll`); see the Findings.
- **Acknowledgements use sequence 0.** Every acknowledgement carries sequence
  number 0, not the sequence of the frame it answers.

## Model

| member | source | states |
|---|---|---|
| Common.Block | custom_components/solarman_deye/coordinator.py:127-128 | the map written by `regs[start + i] = val` has exactly the keys start .. start + count - 1 |
| Common.BlockAt | custom_components/solarman_deye/server.py:139-140 | key start + i holds the i-th value of the block |
| Common.BlockSnoc | custom_components/solarman_deye/server.py:158-159 | storing one more value extends the block by exactly that entry |
| Common.DecimalString | custom_components/solarman_deye/coordinator.py:253 | Python's decimal text of a natural number: non-empty digits, no leading zero, one digit exactly below 10 |
| Common.DecimalStringValue | custom_components/solarman_deye/coordinator.py:253 | the decimal text reads back to the number it was made from |
| Common.IntString | custom_components/solarman_deye/coordinator.py:201 | `str()` of an integer starts with a minus sign exactly when it is negative; the rest is digits without a leading zero that read back to its magnitude |
| Registers.ReadBlocksCoverage | custom_components/solarman_deye/const.py:153-156 | there are two read blocks; together they fetch exactly 59..113 and 150..194, and no address is in both |
| Registers.BatteryNamedRows | custom_components/solarman_deye/const.py:142 | dropping the unnamed rows of the battery table removes only its placeholder row |
| Registers.SingleRegistersAreRead | custom_components/solarman_deye/const.py:140-156 | every row of `ALL_SINGLE_REGISTERS` is named and its address lies in one of the read blocks |
| Registers.TotalPairsInFirstBlock | custom_components/solarman_deye/const.py:115-122 | every 32-bit total has high = low + 1 and both words in the first read block |
| Registers.PlaceholderOnlyInBattery | custom_components/solarman_deye/const.py:140-149 | `ALL_SINGLE_REGISTERS` holds only named rows; the one unnamed row of the tables is the battery row at 184; the combined table has as many rows as the tables together, less the placeholder |
| Registers.RunningStateCodes | custom_components/solarman_deye/const.py:131-137 | `RUNNING_STATES` is defined for exactly the codes 0 to 4 |
| Registers.Register79Shared | custom_components/solarman_deye/const.py:79-122 | address 79 is both the grid frequency row and the high word of the total grid import energy |
| V5Frames.SumRangeIsSum | custom_components/solarman_deye/server.py:64 | the checksum's running sum over a range equals the sum of that slice of the frame |
| V5Frames.PackLE16 | custom_components/solarman_deye/server.py:168-170 | `struct.pack("<H", v)` gives two bytes that read back as v |
| V5Frames.PackLE32 | custom_components/solarman_deye/server.py:171 | `struct.pack("<I", v)` gives four bytes that read back as v |
| V5Frames.FindStart | custom_components/solarman_deye/server.py:45 | `data.find(0xA5, pos)` returns a position at or after pos that holds 0xA5 |
| V5Frames.FindStartFirst | custom_components/solarman_deye/server.py:45 | no 0xA5 lies between pos and the position found, and none at all when the search fails |
| V5Frames.CandidateStep | custom_components/solarman_deye/server.py:46-68 | a candidate at a start byte is rejected with a resync at start + 1, or accepted as a span at that start whose end byte and checksum hold |
| V5Frames.NextStep | custom_components/solarman_deye/server.py:43-68 | one turn of the scan either stops, resyncs strictly further on, or yields a checked span at or after the cursor |
| V5Frames.WellFormedCons | custom_components/solarman_deye/server.py:75-76 | a checked span followed by spans starting after its end is a well-formed sequence of spans |
| V5Frames.SpansWellFormed | custom_components/solarman_deye/server.py:43-76 | the spans the scan accepts all pass the end and checksum checks, come in stream order and never overlap |
| V5Frames.SpansDecodable | custom_components/solarman_deye/server.py:71-73 | when no accepted span is too short for a header, the header of every span can be extracted |
| V5Frames.DecodeSpans | custom_components/solarman_deye/server.py:71-75 | one frame is extracted per accepted span |
| V5Frames.DecodeSpansAt | custom_components/solarman_deye/server.py:71-75 | the i-th frame is the header fields of the i-th span |
| V5Frames.ScanOutcomeCons | custom_components/solarman_deye/server.py:75-76 | appending one decoded frame and scanning on composes into the outcome over the longer span list |
| V5Frames.ScanFromSpans | custom_components/solarman_deye/server.py:43-78 | the scan raises at the last span exactly when that span is too short for a header; otherwise it returns one frame per accepted span |
| V5Frames.FrameChecks | custom_components/solarman_deye/server.py:58-68 | the candidate passes exactly when its last byte is 0x15 and its second-to-last byte is the sum of the earlier bytes mod 256 |
| V5Frames.FrameFields | custom_components/solarman_deye/server.py:71-73 | an accepted frame's type is byte 11, its serial the little-endian word at 7, and its payload the bytes from 12 to the checksum |
| V5Frames.ScanCandidate | custom_components/solarman_deye/server.py:46-76 | the method's step at a start byte is the specified one, and it yields the decoded frame exactly when the candidate is accepted |
| V5Frames.ScanPass | custom_components/solarman_deye/server.py:43-76 | one pass of the loop either ends the scan with its result or advances the cursor without changing what the rest of the scan returns |
| V5Frames.ParseV5Frames | custom_components/solarman_deye/server.py:36-78 | `_parse_v5_frames` returns exactly the frames of the specified scan, or the error of a span too short for a header |
| V5Frames.ParsedFramesAccepted | custom_components/solarman_deye/server.py:59-76 | each returned frame comes from a checked span, in stream order without overlap; an error names a checked span too short for a header |
| V5Frames.NoMarkerBefore | custom_components/solarman_deye/server.py:45 | bytes without 0xA5 before k do not change where the search finds a start |
| V5Frames.SpansSameStart | custom_components/solarman_deye/server.py:45-47 | two cursors that lead to the same start byte give the same spans |
| V5Frames.LeadingNoiseSkipped | custom_components/solarman_deye/server.py:45 | leading bytes without 0xA5 are skipped without effect on the spans |
| V5Frames.CandidateShift | custom_components/solarman_deye/server.py:50-68 | a candidate's claimed size and checks do not depend on the bytes before it |
| V5Frames.SumRangeShift | custom_components/solarman_deye/server.py:64 | the checksum sum does not depend on bytes before the frame |
| V5Frames.DecodeSpanShift | custom_components/solarman_deye/server.py:71-73 | a frame's header fields do not depend on the bytes before it |
| V5Frames.AckHead | custom_components/solarman_deye/server.py:166-174 | the acknowledgement before its checksum is 14 bytes |
| V5Frames.AckHeadFields | custom_components/solarman_deye/server.py:166-174 | start byte 0xA5, length 11, control code 0x1010, the sequence, the serial, the frame type, status 0x01 and padding 0x00, at their offsets |
| V5Frames.AckFrame | custom_components/solarman_deye/server.py:164-178 | the acknowledgement is 16 bytes long |
| V5Frames.AckFrameLayout | custom_components/solarman_deye/server.py:175-177 | the acknowledgement is its 14-byte head, then the head's sum mod 256, then 0x15 |
| V5Frames.BuildV5Ack | custom_components/solarman_deye/server.py:164-178 | `_build_v5_ack` builds exactly the specified acknowledgement |
| V5Frames.AckChecksum | custom_components/solarman_deye/server.py:175-177 | the acknowledgement passes the end-byte and checksum checks |
| V5Frames.AckAccepted | custom_components/solarman_deye/server.py:164-178 | the scan finds the acknowledgement at 0 with size 16, and decodes it as (type, serial, [0x01, 0x00]) |
| V5Frames.AckRoundTrip | custom_components/solarman_deye/server.py:164-178 | parsing an acknowledgement gives back exactly one frame: its type, its serial and the payload [0x01, 0x00] |
| V5Frames.AckThenMore | custom_components/solarman_deye/server.py:75-76 | an acknowledgement at the front of a read is returned and the scan resumes at byte 16 |
| V5Frames.AckAfter | custom_components/solarman_deye/server.py:43-78 | an acknowledgement at the end of a read is the last frame returned |
| V5Frames.TwoAcksInOneRead | custom_components/solarman_deye/server.py:43-78 | two acknowledgements back to back come out as two frames, in order |
| V5Frames.CandidatePrefix | custom_components/solarman_deye/server.py:50-68 | the claimed size and checks of a complete candidate do not depend on the bytes after it |
| V5Frames.SumRangePrefix | custom_components/solarman_deye/server.py:64 | the checksum sum does not depend on bytes after the frame |
| V5Frames.DecodeSpanPrefix | custom_components/solarman_deye/server.py:71-73 | a frame's header fields do not depend on bytes after it |
| V5Frames.TruncatedAckYieldsNothing | custom_components/solarman_deye/server.py:46-54 | any proper prefix of an acknowledgement yields no frame and no error: an incomplete frame ends the scan silently |
| V5Frames.CorruptLengthHidesNextFrame | custom_components/solarman_deye/server.py:50-54 | with the first acknowledgement's length byte set to 0xFF, the valid acknowledgement after it is not returned |
| PushPayload.Words | custom_components/solarman_deye/server.py:120 | `struct.unpack(">nH", ...)` gives n words |
| PushPayload.WordsAt | custom_components/solarman_deye/server.py:120 | word i is the big-endian value of bytes 2i and 2i + 1 |
| PushPayload.WordsSameBytes | custom_components/solarman_deye/server.py:120 | the words depend only on the 2n bytes they are read from |
| PushPayload.StartRegister | custom_components/solarman_deye/server.py:128-137 | the guessed start is 59 or 150, and 150 exactly when 40 <= count < 50 |
| PushPayload.StoreBlock | custom_components/solarman_deye/server.py:139-140 | the loop stores the values at consecutive registers from the start |
| PushPayload.TryRawRegisterParse | custom_components/solarman_deye/server.py:145-161 | `_try_raw_register_parse` returns the specified raw dump |
| PushPayload.ExtractRegistersFromPayload | custom_components/solarman_deye/server.py:81-142 | `_extract_registers_from_payload` returns the specified register map for every payload |
| PushPayload.BlockOfWords | custom_components/solarman_deye/server.py:139-140 | the stored block holds, at start + i, the i-th big-endian word, and no other key |
| PushPayload.RawRegistersShape | custom_components/solarman_deye/server.py:152-161 | fewer than 4 bytes give no registers; otherwise registers 0..n/2-1 hold the big-endian words |
| PushPayload.PayloadEmptyCases | custom_components/solarman_deye/server.py:92-114 | the map is empty for a payload under 16 bytes, a Modbus part under 5 bytes, or a read response shorter than its byte count |
| PushPayload.PayloadReadResponse | custom_components/solarman_deye/server.py:112-140 | for function 0x03 or 0x04, byte count / 2 big-endian words are stored from 150 when 40 <= count < 50, and from 59 otherwise |
| PushPayload.PayloadRawFallback | custom_components/solarman_deye/server.py:104-110 | any other function code makes the Modbus part a raw dump from register 0 |
| PushPayload.OddTrailingByteIgnored | custom_components/solarman_deye/server.py:119-120 | with an odd byte count, changing the last data byte does not change the map |
| PushPayload.PackBE16 | custom_components/solarman_deye/server.py:120 | a packed big-endian word reads back as itself |
| PushPayload.EncodeWords | custom_components/solarman_deye/server.py:120 | encoding n words gives 2n bytes |
| PushPayload.WordsOfEncoding | custom_components/solarman_deye/server.py:120 | reading encoded words back gives the words |
| PushPayload.ReadResponseFields | custom_components/solarman_deye/server.py:96-102 | after the prefix, the response built from values holds the function code, the byte count and the values |
| PushPayload.PayloadRoundTrip | custom_components/solarman_deye/server.py:81-142 | a read response carrying n >= 1 words gives back exactly those words at the guessed start register |
| V5Server.FrameAck | custom_components/solarman_deye/server.py:241 | each frame is answered with a 16-byte acknowledgement |
| V5Server.FrameAckParses | custom_components/solarman_deye/server.py:239-245 | the acknowledgement of a frame parses back to its type and serial; heartbeat and hello frames deliver nothing |
| V5Server.Acks | custom_components/solarman_deye/server.py:233-245 | a read's acknowledgements are 16 bytes per frame |
| V5Server.AcksAt | custom_components/solarman_deye/server.py:233-245 | the k-th 16 bytes sent are the acknowledgement of the k-th frame, with sequence 0 |
| V5Server.AcksAppend | custom_components/solarman_deye/server.py:233-245 | the acknowledgements of two runs of frames are sent one after the other |
| V5Server.LastOrAppend | custom_components/solarman_deye/coordinator.py:76-78 | the slot after two runs of deliveries is the last delivery of the second run, else of the first, else the old slot |
| V5Server.DeliveriesAppend | custom_components/solarman_deye/server.py:247-261 | the deliveries of two runs of frames are those of the first run followed by those of the second |
| V5Server.DeliveriesFromFrames | custom_components/solarman_deye/server.py:247-261 | every delivery is the register map of some deliverable frame of the read |
| V5Server.DeliverableDelivered | custom_components/solarman_deye/server.py:247-261 | every deliverable frame's register map is delivered |
| V5Server.DeliveriesNonEmpty | custom_components/solarman_deye/server.py:247-261 | a read delivers something exactly when one of its frames has the expected serial, type 0x42 and a non-empty map |
| V5Server.ReadResponseDelivered | custom_components/solarman_deye/server.py:254-261 | a data frame from the logger carrying a read response delivers exactly its block of registers |
| V5Server.ForeignFrameIgnored | custom_components/solarman_deye/server.py:248-252 | a frame with another serial is acknowledged but delivers nothing |
| V5Server.ProcessedReads | custom_components/solarman_deye/server.py:227-232 | reads are handled in order until the first one that is empty or cannot be scanned |
| V5Server.EndedSessionIgnoresMore | custom_components/solarman_deye/server.py:226-280 | once a read ends the connection, nothing received after it is looked at |
| V5Server.FailedScanEndsSession | custom_components/solarman_deye/server.py:275-280 | a read whose scan raises ends the connection after the reads before it |
| V5Server.HandleFrame | custom_components/solarman_deye/server.py:239-274 | one frame: the acknowledgement is sent, and the pushed slot takes its registers only when the frame is deliverable |
| V5Server.RouteFrames | custom_components/solarman_deye/server.py:233-274 | the frames of a read: all acknowledged in order, and the slot holds the last delivery |
| V5Server.HandleRead | custom_components/solarman_deye/server.py:228-274 | one read: the connection survives exactly when the read is non-empty and scans, and then its frames are routed; otherwise nothing is sent and the slot is unchanged |
| V5Server.HandleClient | custom_components/solarman_deye/server.py:219-287 | a connection sends the acknowledgements of the reads it handles, and leaves the slot holding the last delivery |
| RegisterDecoder.Signed | custom_components/solarman_deye/coordinator.py:142-145 | `_signed` of a 16-bit value is in [-32768, 32768) and congruent to it mod 2^16 |
| RegisterDecoder.SignedInverse | custom_components/solarman_deye/coordinator.py:142-145 | `_signed` is two's complement: inverse of reduction mod 2^16, negative exactly from 32768 |
| RegisterDecoder.Signed32 | custom_components/solarman_deye/coordinator.py:147-150 | `_signed32` of a 32-bit value is in [-2^31, 2^31) and congruent to it mod 2^32 |
| RegisterDecoder.Signed32Inverse | custom_components/solarman_deye/coordinator.py:147-150 | `_signed32` is two's complement: inverse of reduction mod 2^32, negative exactly from 2^31 |
| RegisterDecoder.Trunc | custom_components/solarman_deye/coordinator.py:200 | `int()` of a number truncates toward zero |
| RegisterDecoder.TruncOfInt | custom_components/solarman_deye/coordinator.py:200 | `int()` of a whole number is that number |
| RegisterDecoder.CombineSplit | custom_components/solarman_deye/coordinator.py:195 | `(high << 16) \| low` is a 32-bit number whose halves are high and low |
| RegisterDecoder.Max0 | custom_components/solarman_deye/coordinator.py:224 | `max(0.0, x)` is the least non-negative bound of x |
| RegisterDecoder.StoreSingles | custom_components/solarman_deye/coordinator.py:157-173 | the generic loop stores the specified readings |
| RegisterDecoder.StoreBattery | custom_components/solarman_deye/coordinator.py:176-187 | the battery loop stores the specified readings |
| RegisterDecoder.StoreTotals | custom_components/solarman_deye/coordinator.py:190-196 | the 32-bit loop stores the specified totals |
| RegisterDecoder.StoreReadings | custom_components/solarman_deye/coordinator.py:156-196 | the three loops together give the specified numeric readings |
| RegisterDecoder.Parse | custom_components/solarman_deye/coordinator.py:152-227 | `_parse` returns the specified snapshot |
| RegisterDecoder.FinishReadings | custom_components/solarman_deye/coordinator.py:198-225 | the text translation and derived keys give the specified snapshot |
| RegisterDecoder.ApplyRowsKeys | custom_components/solarman_deye/coordinator.py:166-173 | a row loop adds exactly the names of the named rows whose address is in the map |
| RegisterDecoder.ApplyRowsOther | custom_components/solarman_deye/coordinator.py:166-187 | a name no row carries keeps its presence and value |
| RegisterDecoder.ApplyRowsLast | custom_components/solarman_deye/coordinator.py:166-187 | a present row that is the last with its name leaves that name holding its reading |
| RegisterDecoder.ApplyTotalsKeys | custom_components/solarman_deye/coordinator.py:190-196 | the 32-bit loop adds exactly the names whose low and high words are both in the map |
| RegisterDecoder.ApplyTotalsOther | custom_components/solarman_deye/coordinator.py:190-196 | a name no total carries keeps its presence and value |
| RegisterDecoder.ApplyTotalsLast | custom_components/solarman_deye/coordinator.py:190-196 | a present total that is the last with its name holds high * 65536 + low, scaled |
| RegisterDecoder.NumericKeys | custom_components/solarman_deye/coordinator.py:156-196 | a numeric key is present exactly when some generic, battery or 32-bit row with that name has its registers |
| RegisterDecoder.FinishKeys | custom_components/solarman_deye/coordinator.py:198-225 | the derived keys are exactly the CO2 keys of the PV energies read, and cycles and health when the discharge total was read and the capacity is positive |
| RegisterDecoder.FinishKeeps | custom_components/solarman_deye/coordinator.py:198-225 | every other reading is passed through unchanged |
| RegisterDecoder.FinishDerived | custom_components/solarman_deye/coordinator.py:198-225 | state texts, CO2 = energy * factor, cycles = discharge / capacity, and health = 100 * (1 - cycles / rated) floored at 0, at most 100 for non-negative cycles |
| RegisterDecoder.UniqueRowReading | custom_components/solarman_deye/coordinator.py:166-173 | a name carried by a single row is present exactly when its address is, and holds that row's reading |
| RegisterDecoder.GenericReading | custom_components/solarman_deye/coordinator.py:157-173 | a generic row with a unique name is read exactly when its address is present, as signed-or-raw times scale |
| RegisterDecoder.BatteryReading | custom_components/solarman_deye/coordinator.py:176-187 | a battery row with a unique name is read exactly when its address is present, with the battery rule |
| RegisterDecoder.BatteryTemperatureUnique | custom_components/solarman_deye/const.py:76 | the battery temperature is the row at 182, named in no other row |
| RegisterDecoder.BatteryTemperatureReading | custom_components/solarman_deye/coordinator.py:182-184 | the battery temperature is present exactly when 182 is, equals (raw - 1000) * 0.1, and 1250 gives 25.0 |
| RegisterDecoder.UniqueTotalReading | custom_components/solarman_deye/coordinator.py:190-196 | a name carried by a single total is present exactly when both words are, and holds high * 65536 + low, scaled |
| RegisterDecoder.TotalReading | custom_components/solarman_deye/coordinator.py:190-196 | a 32-bit total with a unique name is read exactly when both words are present |
| RegisterDecoder.NotRead | custom_components/solarman_deye/coordinator.py:156-196 | a name that no row carries never appears among the numeric readings |
| RegisterDecoder.RunningStateRow | custom_components/solarman_deye/const.py:125 | the running state is the unscaled row at 59 and the only row with that name |
| RegisterDecoder.GridStatusRow | custom_components/solarman_deye/const.py:126 | the grid status is the unscaled row at 194 and the only row with that name |
| RegisterDecoder.DailyPvRow | custom_components/solarman_deye/const.py:106 | the daily PV energy is the row at 108, scale 0.1, and the only row with that name |
| RegisterDecoder.TotalPvRow | custom_components/solarman_deye/const.py:116 | the total PV energy is the pair 96/97, scale 0.1, and the only row with that name |
| RegisterDecoder.TotalDischargeRow | custom_components/solarman_deye/const.py:118 | the total battery discharge is the pair 74/75, scale 0.1, and the only row with that name |
| RegisterDecoder.Co2NamesNotRows | custom_components/solarman_deye/const.py:61-122 | no register row carries the CO2 names |
| RegisterDecoder.CycleNamesNotRows | custom_components/solarman_deye/const.py:61-122 | no register row carries the battery cycle and health names |
| RegisterDecoder.RunningStateReading | custom_components/solarman_deye/coordinator.py:199-201 | the running state is present exactly when 59 is; it is the state's name, or "Unknown (code)" for codes outside 0..4 |
| RegisterDecoder.GridStatusReading | custom_components/solarman_deye/coordinator.py:204-207 | the grid status is present exactly when 194 is; it is "Connected" exactly when the value is 1, else "Disconnected" |
| RegisterDecoder.Co2FromPv | custom_components/solarman_deye/coordinator.py:210-216 | each CO2 key is present exactly when its PV energy is, and equals energy * factor |
| RegisterDecoder.DailyCo2Reading | custom_components/solarman_deye/coordinator.py:211-213 | the daily CO2 is present exactly when 108 is, and is 108's raw * 0.1 * factor |
| RegisterDecoder.TotalPvReading | custom_components/solarman_deye/coordinator.py:190-196 | the total PV energy is present exactly when 96 and 97 are, and is (r97 * 65536 + r96) * 0.1 |
| RegisterDecoder.TotalCo2Reading | custom_components/solarman_deye/coordinator.py:214-216 | the total CO2 is present exactly when 96 and 97 are, and is their total * 0.1 * factor |
| RegisterDecoder.BatteryCyclesReading | custom_components/solarman_deye/coordinator.py:219-225 | cycles and health are present exactly when 74, 75 and a positive capacity are; cycles = total discharge / capacity |
| CoordinatorState.Overlay | custom_components/solarman_deye/coordinator.py:127-128 | storing a block adds exactly its addresses to the map |
| CoordinatorState.OverlayAt | custom_components/solarman_deye/coordinator.py:127-128 | a block's addresses hold its values; the other addresses keep theirs |
| CoordinatorState.SessionRegisters | custom_components/solarman_deye/coordinator.py:122-129 | a session whose two block reads answer in full gives exactly the addresses of `READ_BLOCKS`, each holding its value |
| CoordinatorState.RetryOutcome | custom_components/solarman_deye/coordinator.py:116-140 | the poll fails exactly when all three attempts fail, with the third attempt's error and two pauses; otherwise at most two pauses, none when the first attempt succeeds |
| CoordinatorState.RetryFirstSuccess | custom_components/solarman_deye/coordinator.py:117-138 | a successful poll returns the first attempt that succeeds, after one pause per failed attempt |
| CoordinatorState.FirmwareTextInjective | custom_components/solarman_deye/coordinator.py:253 | the "M.N.P" text determines the three registers it was made from |
| CoordinatorState.UnknownDeviceType | custom_components/solarman_deye/coordinator.py:248 | an unknown device code is shown as "Type " and its decimal code |
| CoordinatorState.UpdateFailureCases | custom_components/solarman_deye/coordinator.py:277-290 | the first update never fails; an update fails exactly when nothing was pushed, data exists and all attempts fail, with "Error communicating with inverter: " and the last error; a first failed poll gives {} |
| CoordinatorState.PushedPreferred | custom_components/solarman_deye/coordinator.py:270-274 | with pushed registers the update is their decoding, whatever the logger would answer |
| CoordinatorState.Coordinator.constructor | custom_components/solarman_deye/coordinator.py:68-74 | no client, device type "Hybrid Inverter", no firmware, latch clear, empty slot, no data |
| CoordinatorState.Coordinator.ReceivePushedData | custom_components/solarman_deye/coordinator.py:76-78 | the slot holds the registers just pushed |
| CoordinatorState.Coordinator.Disconnect | custom_components/solarman_deye/coordinator.py:96-103 | afterwards there is no client |
| CoordinatorState.Coordinator.StoreValues | custom_components/solarman_deye/coordinator.py:127-128 | the store loop gives the specified overlay |
| CoordinatorState.Coordinator.ReadBlocks | custom_components/solarman_deye/coordinator.py:122-129 | one session's block loop gives the merged map, or the first failing read's error |
| CoordinatorState.Coordinator.ReadRegisters | custom_components/solarman_deye/coordinator.py:109-140 | `_read_registers` as written: the specified poll result and pauses; the client stays connected exactly when the poll succeeds |
| CoordinatorState.Coordinator.ReadRegistersAndRelease | custom_components/solarman_deye/coordinator.py:109-140 | the same poll result and pauses, and no client afterwards, as the docstring intends |
| CoordinatorState.Coordinator.ReadDeviceInfo | custom_components/solarman_deye/coordinator.py:233-257 | with the latch set nothing changes; otherwise the latch is set even on failure, the type comes from register 0 and "M.N.P" from 13..15 only when more than 15 values come back |
| CoordinatorState.Coordinator.Poll | custom_components/solarman_deye/coordinator.py:277-294 | the poll result; a client stays connected exactly when the poll succeeds with the device-info latch already set, since only the first successful poll is followed by `_read_device_info`, which disconnects; after that first poll the device type and firmware are those the identification read gives; after a failed or later poll, device info is untouched |
| CoordinatorState.Coordinator.AsyncUpdateData | custom_components/solarman_deye/coordinator.py:263-296 | the result is the specified update outcome; the slot is cleared; with pushed data the connection is untouched, otherwise a client stays connected exactly when the poll succeeds after the latch was set; the device type and firmware are identified after the first successful poll and untouched otherwise |
| CoordinatorState.Coordinator.Refresh | custom_components/solarman_deye/coordinator.py:263-296 | an update whose success becomes the coordinator's data, and whose failure keeps the old data; the slot, connection and device-info fields end as after `_async_update_data` |
| CoordinatorState.LastPushWins | custom_components/solarman_deye/coordinator.py:76-78 | after two pushes the update decodes the second; the next update polls |
| CoordinatorState.ClientLeftOpen | custom_components/solarman_deye/coordinator.py:121-129 | a script whose first session answers both blocks makes the poll succeed, so the as-written read leaves the client connected |
| Diagnostics.Redact | custom_components/solarman_deye/diagnostics.py:29-34 | the same keys; the serial number masked as "**REDACTED**"; every other value kept |
| Diagnostics.RedactIdempotent | custom_components/solarman_deye/diagnostics.py:29-34 | redacting twice is redacting once |
| Diagnostics.SerialNumberMasked | custom_components/solarman_deye/diagnostics.py:26-34 | whatever the serial number, the document shows it masked |
| Diagnostics.LabelBlockEntries | custom_components/solarman_deye/diagnostics.py:50-54 | a block adds exactly its registers' labels, each holding the value of a register with that label; other entries unchanged |
| Diagnostics.CollectAppend | custom_components/solarman_deye/diagnostics.py:43-54 | the block loop over two runs of blocks is the loop over the first, then the second |
| Diagnostics.FailedBlockSkipped | custom_components/solarman_deye/diagnostics.py:44-49 | a block whose read raises contributes nothing; the others still do |
| Diagnostics.CollectedKeys | custom_components/solarman_deye/diagnostics.py:43-54 | a key is collected exactly when some answered block has a register with that label |
| Diagnostics.CollectedValues | custom_components/solarman_deye/diagnostics.py:43-54 | each collected value is the value of some answered register with that label |
| Diagnostics.CollectConfig | custom_components/solarman_deye/diagnostics.py:42-54 | the block loop gives the specified labelled map |
| Diagnostics.VoltageTextValue | custom_components/solarman_deye/diagnostics.py:70-77 | a voltage text is whole volts, a point, the tenths digit and " V", and reads back to the raw value; 470 gives "47.0 V" |
| Diagnostics.UnitTexts | custom_components/solarman_deye/diagnostics.py:79-89 | capacity 100 gives "100 Ah", current 30 gives "30 A", SOC 5 gives "5 %" |
| Diagnostics.UnknownEnumText | custom_components/solarman_deye/diagnostics.py:61-68 | a code the table lacks is shown as "Unknown (code)", from which the code reads back |
| Diagnostics.FoldSlotsError | custom_components/solarman_deye/diagnostics.py:100-106 | the slot loop raises exactly when a slot with a start hour lacks a minute or end time, with the formatting error's message |
| Diagnostics.FoldSlotsKeys | custom_components/solarman_deye/diagnostics.py:92-106 | afterwards the keys are the old ones less the slot keys, plus "Time slot N" exactly for the slots with a start hour |
| Diagnostics.FoldSlotsValues | custom_components/solarman_deye/diagnostics.py:100-106 | each "Time slot N" holds its slot's text; other entries are unchanged |
| Diagnostics.DecodedEntries | custom_components/solarman_deye/diagnostics.py:61-106 | the decoded configuration: when it raises, which keys it has, the slot texts and the formatted values |
| Diagnostics.Pad2Value | custom_components/solarman_deye/diagnostics.py:104 | `f"{v:02d}"` is all digits, exactly two below 100, and reads back to v |
| Diagnostics.ModeTextInjective | custom_components/solarman_deye/diagnostics.py:101 | "Charge", "Discharge" and "Mode cd" tell the codes (and their absence) apart |
| Diagnostics.Reformat | custom_components/solarman_deye/diagnostics.py:62-89 | one `if key in config` step formats that key's entry when it exists |
| Diagnostics.FormatConfig | custom_components/solarman_deye/diagnostics.py:61-89 | the enumeration and unit steps give the specified formatted map |
| Diagnostics.FoldTimeSlots | custom_components/solarman_deye/diagnostics.py:91-106 | the slot loop gives the specified folded configuration or its error |
| Diagnostics.DecodeConfig | custom_components/solarman_deye/diagnostics.py:61-108 | formatting then folding gives the specified decoded configuration |
| Diagnostics.ReadInverterConfig | custom_components/solarman_deye/diagnostics.py:37-108 | `_read_inverter_config` decodes the labelled values of the answered blocks |
| Diagnostics.GetConfigEntryDiagnostics | custom_components/solarman_deye/diagnostics.py:111-133 | the document: redacted entry, options, the last data or {}, and the configuration or {"error": message} |
| Discovery.Lead | custom_components/solarman_deye/discovery.py:45 | the leading whitespace that `strip` removes: all whitespace, followed by a non-space |
| Discovery.Trail | custom_components/solarman_deye/discovery.py:45 | the trailing whitespace that `strip` removes |
| Discovery.Strip | custom_components/solarman_deye/discovery.py:45 | `str.strip` gives a text with no whitespace at either end, empty exactly for all-whitespace input |
| Discovery.StripPadded | custom_components/solarman_deye/discovery.py:45 | stripping whitespace around a stripped text gives that text |
| Discovery.StrippedStrip | custom_components/solarman_deye/discovery.py:45 | a stripped text is unchanged by `strip` |
| Discovery.StripIdempotent | custom_components/solarman_deye/discovery.py:45 | stripping twice is stripping once |
| Discovery.Split | custom_components/solarman_deye/discovery.py:46 | `split(",")` gives one more field than there are commas, none containing a comma |
| Discovery.JoinSplit | custom_components/solarman_deye/discovery.py:46 | joining the fields with commas gives back the text |
| Discovery.SplitJoin | custom_components/solarman_deye/discovery.py:46 | splitting comma-free fields joined with commas gives back the fields |
| Discovery.Digits | custom_components/solarman_deye/discovery.py:49 | the digits of an integer literal, underscores dropped |
| Discovery.DecimalStringParses | custom_components/solarman_deye/discovery.py:49 | `int()` accepts a decimal text and reads its value |
| Discovery.SignedNegative | custom_components/solarman_deye/discovery.py:49 | a minus sign before a literal negates its value |
| Discovery.ParseSignedIntString | custom_components/solarman_deye/discovery.py:49 | the sign and digits of `str(n)` read back as n |
| Discovery.ParseIntRoundTrip | custom_components/solarman_deye/discovery.py:49 | `int(str(n)) == n` for every integer |
| Discovery.ParseIntStrip | custom_components/solarman_deye/discovery.py:49 | for a text without the separators U+001C..U+001F, `int()` of the stripped text equals `int()` of the text: `int()` skips surrounding whitespace itself |
| Discovery.SeparatorNotSkipped | custom_components/solarman_deye/discovery.py:49 | `strip()` removes a leading U+001C but `int()` rejects it: `int("\x1c5")` fails while its stripped text reads 5 |
| Discovery.ParseIntRejects | custom_components/solarman_deye/discovery.py:48-51 | a character other than a digit, an underscore or a leading sign, once `int()` has skipped its whitespace, makes `int()` fail |
| Discovery.ParseResponse | custom_components/solarman_deye/discovery.py:45-57 | a device's ip and mac are stripped texts |
| Discovery.FewFieldsIgnored | custom_components/solarman_deye/discovery.py:46-47 | a reply with fewer than three fields gives no device |
| Discovery.ResponseFields | custom_components/solarman_deye/discovery.py:45-57 | with three or more fields, a device exists exactly when the third is an integer, and holds the stripped first two fields and that integer |
| Discovery.ResponseRoundTrip | custom_components/solarman_deye/discovery.py:45-57 | a reply written as "ip,mac,serial[,extra...]" parses back to that device; extra fields are ignored |
| Discovery.Devices | custom_components/solarman_deye/discovery.py:52-57 | no more devices than replies |
| Discovery.ParsedReplies | custom_components/solarman_deye/discovery.py:42-58 | one parse per reply |
| Discovery.ParsedRepliesAt | custom_components/solarman_deye/discovery.py:42-58 | the i-th parse is that of the i-th reply |
| Discovery.DiscoveredAppend | custom_components/solarman_deye/discovery.py:52 | the devices of two runs of replies are those of the first run, then the second |
| Discovery.InvalidReplySkipped | custom_components/solarman_deye/discovery.py:48-51 | a reply that does not parse changes nothing and does not end the scan |
| Discovery.DiscoveredMembers | custom_components/solarman_deye/discovery.py:45-57 | a device is found exactly when some reply parses to it |
| Discovery.DiscoveredSnoc | custom_components/solarman_deye/discovery.py:52 | one more reply appends its device, if it parses, after those found so far |
| Discovery.ScanNetwork | custom_components/solarman_deye/discovery.py:35-60 | the receive loop lists the devices of the replies that parse, in arrival order, and none without replies |
| Discovery.GarbageReply | custom_components/solarman_deye/discovery.py:46-47 | "garbage data" gives no device |
| Discovery.NotANumber | custom_components/solarman_deye/discovery.py:48-51 | "not_a_number" is not an integer |

## Left out

- Floating point: `round(value, precision)` and the binary rounding of `* 0.1`, `* 0.01` and the CO2 and cycle arithmetic are not modelled. Readings are exact reals, so every reading is the value before rounding.
- Sockets and asyncio: server start and stop, the 4096-byte read size, the 300 s read timeout, `writer.drain` and `writer.close` are not modelled. A connection is the sequence of byte strings its reads returned; an empty read, a timeout or a reset all end it.
- A failed `writer.write`/`drain` of an acknowledgement is ignored by the source; the model treats every acknowledgement as sent.
- `time.sleep(2)` between attempts becomes a pause counter.
- The pysolarmanv5 client (`_new_client`, `read_input_registers`, `read_holding_registers`, `disconnect`) is not modelled. Each attempt is scripted as a refused connection or a session with the answer to each block read, and the device-info read is given as one such answer.
- `DEVICE_TYPES`, `DEVICE_INFO_BLOCK`, `HOLDING_READ_BLOCKS`, `HOLDING_REGISTER_LABELS`, `WORK_MODES` and `BATTERY_TYPES` are not part of this model; they are parameters.
- The rated cycle life is required to be positive; the options flow enforces a minimum, and `_parse` divides by it.
- The Home Assistant framework (`DataUpdateCoordinator`, `UpdateFailed`, `async_add_executor_job`, entities, config flows, setup, `update.py`) is not modelled. `UpdateFailed` becomes an error result with its message, and `Refresh` stands for the framework storing a successful result in `data`.
- Dictionary insertion order is not modelled: register maps, snapshots and the diagnostics configuration are Dafny maps.
- Diagnostics.FoldTimeSlots: the message of the error raised by formatting a missing slot time is fixed to Python's `TypeError` text; which of the three missing values raised it is not distinguished.
- Discovery: the UDP socket, the broadcast and the `utf-8` decoding with `errors="ignore"` are not modelled. Replies are given as already decoded texts, in arrival order.
- Discovery.ParseResponse: `int()` accepts only ASCII digits here; Python also accepts other Unicode decimal digits.
- `_signed32` is modelled on its own; `_parse` never calls it.
- `sensor.py`, `config_flow.py`, `__init__.py` and `update.py` are not part of this model.

## Findings

| source | as written | input that shows it | evidently intended | confidence | as-written member | corrected member |
|---|---|---|---|---|---|---|
| custom_components/solarman_deye/coordinator.py:109-140 | a successful attempt returns at line 129 with `_client` still connected, so the logger's single TCP slot stays taken until the next poll; only the first successful poll is followed by `_read_device_info`, whose `_disconnect` releases it | attempts = a session answering both blocks (55 and 45 values), then two refused connections | the docstring's "connect, read all register blocks, disconnect": no client after the read. The update cycle (`Poll`, `AsyncUpdateData`) keeps the behaviour as written | medium, not executed | CoordinatorState.Coordinator.ReadRegisters, CoordinatorState.ClientLeftOpen | CoordinatorState.Coordinator.ReadRegistersAndRelease |
