# mbloader firmware-update core, modelled in Dafny

mbloader updates the firmware of a device over a Modbus RTU serial link. It uses
the vendor function code 0x6c and four subfunctions: erase flash, program flash,
read checksum and reset device. This project models three parts of it and proves
their properties:

- **The update state machine** (`ModbusLoader`, src/modbusloader.cpp).
  - It runs Idle → EraseFlash → ProgramFlash (once per chunk) → VerifyFlash → ResetDevice → Finished.
  - Each completion of the client runs one step. A first switch reads the device's reply. A second switch issues the one request for the new state.
  - In ProgramFlash a step reads up to 246 image bytes and sends them behind a 4-byte little-endian offset header. It also adds them into an 8-bit running checksum.
  - Module `Loader` (loader.dfy) holds the pure spec functions `Decide`, `Issue`, `Execute`, `Load` and `ClientFinished` over a `Session` value. It also holds the class `ModbusLoader`, which updates its fields in place. Each of the class's methods is proved to leave the fields equal to the spec function of their old values.
  - Module `LoaderProofs` (loader_proofs.dfy) proves what a whole load guarantees: the chunking, the offsets, the checksum and the verification decision. It does this through an invariant that every entry point keeps.
- **The custom PDU codec and reply handling** (`ModbusCustomClient`, src/modbuscustomclient.cpp), module `CustomClient`.
  - A request is the subfunction tag followed by the payload.
  - A response decodes to one register value.
  - A finished reply is classified as success or an error text.
  - The class `ModbusCustomClient` logs what it submits and each `finished` signal. Each logged signal records the error string visible at the moment it was emitted.
- **The connection checks in main()** (src/main.cpp), module `Cli`: settings validation, the parity letter, the `.bin` suffix and the command-line shape.

Module `Wire` (wire.dfy) holds the byte vocabulary the others share: octets, quint16 values, C++ integer conversions, byte sums and the little-endian offset header.

Behaviour of the source that the model reproduces as written:

- A failed device step does not move to a failed state. The state is kept, and the same kind of request is issued again after `finished(false)`, except after the last chunk of the image, when no request is sent.
- An empty image stalls after erase. The first read returns 0, so nothing more is sent. It does not go on to verification.
- The checksum is accumulated from signed `char` values into a `quint8`. `SignedFoldIsUnsignedSum` proves this equals the unsigned byte sum modulo 256, so the result does not depend on whether `char` is signed.
- On a broadcast reply, `finished(false)` is emitted before "Broadcast is not supported" is stored. A directly connected listener therefore sees the previous error text, and `ModbusCustomClient.CustomFunction` states this.

## Model

| member | source | states |
|---|---|---|
| Wire.SignedChar | src/modbusloader.cpp:130-131 | a byte read through `char` lies in -128..127, is negative exactly when the byte is ≥ 0x80, and converts back to the same byte as a quint8 |
| Wire.SumConcat | src/modbusloader.cpp:130-131 | the byte sum of two concatenated runs is the sum of their sums, so chunk checksums add up to the checksum of the image |
| Wire.Le32RoundTrip | src/modbusloader.cpp:111-114 | decoding the 4-byte header least-significant-byte first gives back the file position modulo 2^32 |
| Loader.ReadResult | src/modbusloader.cpp:116-128 | a 246-byte read returns -1 exactly on a read error, otherwise 0..246 bytes that stay inside the file; at least 1 byte before end of file, a full chunk when 246 bytes remain, and exactly the rest at the tail |
| Loader.SignedFoldIsUnsignedSum | src/modbusloader.cpp:130-131 | adding signed chars into a quint8 gives the start value plus the unsigned byte sum, modulo 256 |
| Loader.AccumulateChecksum | src/modbusloader.cpp:130-131 | the checksum loop computes the signed-char fold, which equals the old checksum plus the chunk's unsigned sum modulo 256 |
| Loader.OffsetHeader | src/modbusloader.cpp:111-114 | the header loop produces `Le32(pos)`, which decodes to the position's low 32 bits |
| Loader.ModbusLoader.constructor | src/modbusloader.h:27-40 | a new loader is Idle with checksum 0, no error, and empty logs |
| Loader.ModbusLoader.Program | src/modbusloader.cpp:27-38 | the new fields equal `Load` of the old ones: on an open failure it reports the file error, otherwise it resets to Idle at position 0 and runs one step; the lemmas of `LoaderProofs` are stated about `Load` |
| Loader.ModbusLoader.OnClientFinished | src/modbusloader.cpp:7-14 | the new fields equal `ClientFinished` of the old ones: on failure it copies the client's error and emits finished(false), on success it runs one step; the lemmas of `LoaderProofs` are stated about `ClientFinished` |
| Loader.ModbusLoader.ExecuteStateMachine | src/modbusloader.cpp:40-155 | running both switches in place leaves the fields equal to `Execute` (`Issue` after `Decide`) of the old ones; the lemmas of `LoaderProofs` are stated about these pure functions |
| Loader.ModbusLoader.DecideNext | src/modbusloader.cpp:42-93 | the first switch in place leaves the fields equal to `Decide` of the old ones: a failure keeps the state and emits finished(false) with that state's text |
| Loader.ModbusLoader.IssueRequest | src/modbusloader.cpp:95-154 | the second switch in place leaves the fields equal to `Issue` of the old ones: one request for the new state, or finished(true) in Finished |
| Loader.ModbusLoader.ProgramNextChunk | src/modbusloader.cpp:104-137 | in ProgramFlash, reading, summing and sending the next chunk in place leaves the fields equal to `Issue` of the old ones, including the early returns on a -1 or 0 read |
| LoaderProofs.ChunkListSnoc | src/modbusloader.cpp:111-137 | sending one more chunk after whole chunks appends one Program request whose header is the offset of its first byte |
| LoaderProofs.ChunkCount | src/modbusloader.cpp:116-128 | an image of S bytes is sent in ceil(S / 246) chunks |
| LoaderProofs.ChunkAt | src/modbusloader.cpp:111-137 | chunk i is headed by offset 246·i and carries image bytes 246·i up to min(246·(i+1), S) |
| LoaderProofs.ChunkOffset | src/modbusloader.cpp:111-114 | the device decodes chunk i's header as (base + 246·i) modulo 2^32 |
| LoaderProofs.ChunkOffsetsIncrease | src/modbusloader.cpp:111-137 | for images below 4 GiB the decoded chunk offsets are 0, 246, 492, … and strictly increasing |
| LoaderProofs.ProgramFrameFits | src/modbusloader.cpp:108-110 | a Program request with a full 246-byte chunk fits the 256-byte RTU frame with address, function code and CRC |
| LoaderProofs.ChunksReassemble | src/modbusloader.cpp:133-134 | concatenating the chunk bodies, headers dropped, gives back the image |
| LoaderProofs.FiveHundredByteImage | src/modbusloader.cpp:116-137 | a 500-byte image is sent as 3 chunks at offsets 0, 246 and 492, holding 246, 246 and 8 bytes |
| LoaderProofs.IssueProgramShape | src/modbusloader.cpp:104-139 | the ProgramFlash case of the second switch: no read leaves position, checksum and log alone; a read of n bytes advances the position by n, logs header plus bytes, and adds their sum into the checksum |
| LoaderProofs.ChunkStep | src/modbusloader.cpp:121-137 | one chunk read and sent keeps the position aligned, the checksum equal to the sum of the bytes read, and the Program log equal to the chunks of those bytes |
| LoaderProofs.InvExecute | src/modbusloader.cpp:40-155 | every step, whatever the device replied, keeps the invariant: aligned position, checksum = sum of bytes read mod 256, Program log = chunks read, and verification only at end of file |
| LoaderProofs.InvDecide | src/modbusloader.cpp:42-93 | the first switch keeps the invariant; it leaves the file, position and request log untouched, and changes the checksum only when leaving Idle, where it becomes 0 and the state EraseFlash |
| LoaderProofs.InvIssue | src/modbusloader.cpp:95-154 | the second switch keeps the invariant |
| LoaderProofs.InvLoad | src/modbusloader.cpp:27-38 | starting a load keeps the invariant |
| LoaderProofs.InvClientFinished | src/modbusloader.cpp:7-14 | the client-finished handler keeps the invariant |
| LoaderProofs.ImageSentWhole | src/modbusloader.cpp:59-74 | once at VerifyFlash or later, the whole image has been sent in ceil(S/246) chunks that rebuild it, and the checksum is the sum of all image bytes mod 256 |
| LoaderProofs.VerifyOutcome | src/modbusloader.cpp:70-78 | verification moves to ResetDevice and issues Reset iff the device value equals the image sum mod 256; otherwise "Verifying flash failed", finished(false), state kept and GetChecksum issued again |
| LoaderProofs.LoadOutcome | src/modbusloader.cpp:27-47 | a load whose file opens clears the error and checksum, enters EraseFlash and issues exactly one Erase request; one that fails reports the file's error and changes nothing else (on a fresh loader; a failed reopen during a load is under Left out) |
| LoaderProofs.ProgramAcknowledged | src/modbusloader.cpp:59-68 | status 0 in ProgramFlash with bytes left sends the next chunk: header = pre-read position, then 1..246 bytes, payload length 4 + n, added into the checksum. At end of file it moves to VerifyFlash and issues GetChecksum |
| LoaderProofs.EraseAcknowledged | src/modbusloader.cpp:49-137 | status 0 in EraseFlash moves to ProgramFlash and sends the first chunk: header `Le32(0)`, 1..246 image bytes, checksum = their sum mod 256; an empty image sends nothing, and a read error reports the file's error with finished(false) |
| LoaderProofs.ResetAcknowledged | src/modbusloader.cpp:81-84 | status 0 in ResetDevice moves to Finished and emits finished(true) with no further request |
| LoaderProofs.DeviceFailureKeepsState | src/modbusloader.cpp:49-89 | a nonzero Erase/Program/Reset status or a checksum mismatch emits finished(false) with that state's text and keeps the state. A request of the same kind is issued again; in ProgramFlash with bytes left that is the next chunk, headed by `Le32(pos)`, 1..246 bytes long and added into the checksum, and at end of file nothing is sent |
| LoaderProofs.ProgramFailureThenReadError | src/modbusloader.cpp:59-125 | a Program failure followed by a read error emits finished(false) twice, leaves the file's error text, and sends nothing |
| LoaderProofs.ReadOutcomes | src/modbusloader.cpp:121-128 | a read error reports the file's error and emits finished(false) without sending; a zero-length read sends nothing and changes no field but the progress log |
| LoaderProofs.TransportFailure | src/modbusloader.cpp:7-11 | a failed client completion copies the client's error and emits finished(false) without running the state machine |
| LoaderProofs.EmptyImageStalls | src/modbusloader.cpp:126-127 | with an empty image, erase succeeds and then nothing more is issued and no `finished` signal is emitted (only progress messages are logged): only the Erase request is ever sent |
| LoaderProofs.ForwardOnly | src/modbusloader.cpp:42-93 | a step never moves the state back and advances it by at most one phase |
| CustomClient.SubfunctionOf | src/modbuscustomclient.h:14 | an echoed byte names a subfunction exactly when it is one of the tags 0..3, and then that subfunction's tag is the byte |
| CustomClient.TagRoundTrip | src/modbuscustomclient.h:14 | reading a tag back gives the subfunction it came from |
| CustomClient.EncodeRequest | src/modbuscustomclient.cpp:28-31 | the request is the tag byte followed by the unchanged payload, under function code 0x6c. That code is user-defined and leaves room for the 0x80 exception bit |
| CustomClient.DecodeResponse | src/modbuscustomclient.cpp:67-107 | an empty response or an unknown first byte gives no value. A known tag gives exactly one value for that subfunction, which is nonzero iff the second byte is and whose low byte is that byte. GetChecksum/Reset values are in 0..255; Erase/Program values are ≥ 0xFF80 iff the byte is ≥ 0x80 |
| CustomClient.EchoRoundTrip | src/modbuscustomclient.cpp:30-31 | a response that echoes the request's first byte decodes to the subfunction that was encoded |
| CustomClient.Hex | src/modbuscustomclient.cpp:47-48 | the exception code is written as at least one lower-case hex digit, with no leading zero |
| CustomClient.HexRoundTrip | src/modbuscustomclient.cpp:47-48 | reading the hex text back gives the exception code |
| CustomClient.ExceptionTextParses | src/modbuscustomclient.cpp:47-48 | the protocol-error text is the reply's own text, then " Exception code: 0x", then lower-case hex digits that read back as the exception code |
| CustomClient.Classify | src/modbuscustomclient.cpp:36-53 | NoError succeeds with the reply's values. ProtocolError fails with the reply text + " Exception code: 0x" + hex digits that parse back to the exception code. Any other error fails with the reply text |
| CustomClient.ModbusCustomClient.constructor | src/modbuscustomclient.cpp:8-13 | a new client has no error, no result and empty logs |
| CustomClient.ModbusCustomClient.CustomFunction | src/modbuscustomclient.cpp:28-65 | it submits the encoded request. A pending reply emits nothing yet. A broadcast emits finished(false) with the previous error text, then stores "Broadcast is not supported". No reply stores the device error and emits finished(false) |
| CustomClient.ModbusCustomClient.ReplyFinished | src/modbuscustomclient.cpp:36-55 | success stores the values and emits finished(true); otherwise it stores the classified error text and emits finished(false) |
| Cli.ParityFromOption | src/main.cpp:92-111 | the first character alone picks the parity: N/E/O/M/S select their parity, anything else gives NoParity, and the result is always a declared enum value |
| Cli.ParityLetterSelects | src/main.cpp:92-111 | each parity's letter selects that parity, whatever follows it |
| Cli.ValidateEnum | src/main.cpp:36-44 | true iff the value is one of the declared key values |
| Cli.ValidateClientSettings | src/main.cpp:15-33 | true iff baud rate, data bits, parity and stop bits are declared values, the port name is non-empty, and the address is in 1..255, so broadcast address 0 is rejected |
| Cli.EndsWith | src/main.cpp:86-89 | true iff the string's last characters are exactly the suffix (case-sensitive) |
| Cli.CheckCommandLine | src/main.cpp:67-89 | accepted iff port and address are given and there is exactly one positional argument ending in ".bin", which is returned. A missing port, a missing address and several files are each rejected with their own error |

## Left out

- Qt signals, slots and the event loop (`QTimer::singleShot`, `QCoreApplication::exit`): each completion is an explicit call to `ModbusLoader.OnClientFinished`. The loader keeps logs of the requests it hands to `modbusCustomFunction`, of its `finished` emissions and of its progress messages. The order of entries between different logs is not modelled.
- The loader does not hold a `ModbusCustomClient` object. The client's result list and error text are parameters of `OnClientFinished`. The two classes are modelled side by side, not wired together.
- The RTU transport: `sendRawRequest`, framing, CRC, timeouts, retries, `setSettings` and `registerDataSizeCalculator`. What the transport hands back is the input `Dispatch` / `ReplyStatus`.
- The exception-code fix-up through `QModbusPdu::setFunctionCode` / `exceptionCode()`: only the resulting error text is modelled, with the code as an input.
- QFile as real I/O: the image is an in-memory byte sequence with a position. Open and read failures are abstract flags, with the error string as an input. `readFails` holds for the whole load, so a read that fails after earlier chunks were read successfully is not expressed.
- Calling `program()` a second time on the same loader: `QFile::setFileName` closes the open file, so the source reopens it and reads again from position 0, as `Load` does. The model also clears the loader's request, `finished` and progress logs on each load. If the new file fails to open, the source is left with the previous file closed, while `Load` keeps the previous image open at its old position. A reply still pending from the earlier load then takes a different path: the source's read fails, and its `atEnd()` check is true. The program calls `program()` only once, on a fresh loader, so this path is not reached there.
- The progress percentage `qRound(100.0 * pos / size)`: it is floating point and divides by zero for an empty image. The `Programming` message carries the raw position and size instead. Message texts are not formatted.
- `connectDevice` and its "Connect: " error: this is a transport call.
- QMetaEnum reflection: each enum's legal values are constants taken from Qt 6's QSerialPort.
- QCommandLineParser, `QString::toInt` on option values, and console output: settings are modelled as integers already parsed.
- CustomClient.DecodeResponse: requires a recognised response to be exactly 2 bytes long. This is the source's debug-only `Q_ASSERT(dataSize == 2)`. A release build reading past a 1-byte response is not modelled. Its `>= 0xFF80` clause for Erase and Program assumes a signed `char`, which is implementation-defined (unsigned, for example, with GCC on ARM Linux). Where `char` is unsigned, the value is the byte itself; the nonzero test and the low byte are the same either way.
- Cli.ParityFromOption: requires a non-empty option, as `QString::at(0)` does. An empty `-p ""` is not modelled.
