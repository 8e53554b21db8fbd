# BTR2 reader protocol in Dafny

This project models how a React Native app talks to a MOBA BTR2 transponder
reader over Bluetooth Low Energy, and proves properties of that model.

The model has three layers.

- **Frame codec** (`Btr2DataHelpers`). It covers the STX/ETX-framed,
  `;`-separated ASCII frame:
  - `cleanData` masks disallowed characters.
  - The frame payload is taken out from between the markers and the 8-byte
    CRC field.
  - The chip number is taken from field 7.
  - The acknowledgement timestamp is formatted without padding.
  - The acknowledgement frame is written into a 128-byte buffer with a
    cursor, and the written prefix is copied out.
- **Chunked transfer** (`Btr2CommunicationHelpers`, over the device of
  `Gatt`). It covers:
  - the check that the five required characteristics were discovered;
  - connecting, with one bonding probe and one retry;
  - reading a frame: the read control point gives the length, then a loop
    selects and reads chunks from the read object until the offset reaches
    that length;
  - acknowledging the frame in 20-byte chunks, each announced on the write
    control point and sent to the write object, then a final [L, L]
    announcement.
- **Session state machine** (`MobaBtr2BleContext`). It covers the eight
  `BleState` values, the found devices, the chip numbers read, the connected
  device, the effect that runs on each state change, the scan callback, the
  actions, and one pass of the continuous read loop.

## How the device is modelled

A `Gatt.Device` is a class with two fields: a script of the replies it will
give, and a trace of the operations performed on it. Each `Perform` takes the
next reply and appends the operation to the trace. Once the script is
exhausted, every operation fails with the library's
"Device <id> is not connected". This is how a lost link appears.

Every protocol routine exists in two forms:

- a method that drives the device as the TypeScript code does;
- a function over the script (`ConnectRun`, `AcknowledgeRun`, `ReadRun`,
  with their loop mirrors `AckFrom` and `ReadLoop`) that returns three
  things: the result, the operations performed, and the replies left.

Each method's contract ties it to its function. The properties of the
protocol are then lemmas about those functions.

The clock and the CRC routines are parameters:

- `LocalTime` holds the `Date` getters' readings.
- `crc32Calc`, `parseCRC32FromBtr2Data` and `calculateCRC32OnReceivedBtr2Data`
  are function-valued parameters returning values in [0, 2^32).

Errors are results. A `Result` is `Ok(value)` or `Err(message)`. For the
rejections the source writes itself, and for `Buffer`'s `RangeError`s, the
message is the source's text. The `TypeError` of using a `;`-field that does
not exist is a result too, but its text depends on the JavaScript engine, so
the model gives it a fixed text of its own (see "Left out"). No precondition
excludes malformed input.

## Model

| member | source | states |
|---|---|---|
| Btr2DataHelpers.CleanData | helpers/Btr2DataHelpers.ts:4-6 | same length; each character of `[a-zA-Z0-9:;\],-]` is kept in place, every other one becomes `X`; the result uses only kept characters |
| Btr2DataHelpers.CleanDataIdempotent | helpers/Btr2DataHelpers.ts:4-6 | masking twice is masking once |
| Btr2DataHelpers.PayloadBetweenMarkers | helpers/Btr2DataHelpers.ts:8-15 | with the first STX at s and the first ETX at e ≥ s+9, the payload is exactly bytes s+1 .. e-9 decoded as ASCII |
| Btr2DataHelpers.PayloadWithoutEndMarker | helpers/Btr2DataHelpers.ts:8-15 | with no ETX, `slice`'s end index -1 drops the last byte as though it were the end marker |
| Btr2DataHelpers.MatchPairs | helpers/Btr2DataHelpers.ts:20 | `match(/.{1,2}/g)` yields groups of one or two characters, none a line terminator |
| Btr2DataHelpers.ReverseWithinPairIsIdentity | helpers/Btr2DataHelpers.ts:23-25 | the per-group "reverse" maps every group to itself |
| Btr2DataHelpers.ReversedPairsConcat | helpers/Btr2DataHelpers.ts:20-25 | the reversed groups, joined, equal the reference transform `PairsReversed` |
| Btr2DataHelpers.PairsReversed | helpers/Btr2DataHelpers.ts:20-25 | reference chip-number transform: the 2-character groups, last group first; length preserved |
| Btr2DataHelpers.ChipNumberReversesPairs | helpers/Btr2DataHelpers.ts:17-32 | with field 7 present, non-empty and free of line terminators, the chip number is `PairsReversed(field 7)` |
| Btr2DataHelpers.ChipNumberFailures | helpers/Btr2DataHelpers.ts:18-30 | fewer than 8 fields is the `TypeError`; a field 7 in which `/.{1,2}/g` finds no group (empty, or only line terminators) throws "Could not parse chip number from data string" |
| Btr2DataHelpers.PairsReversedInvolution | helpers/Btr2DataHelpers.ts:20-25 | for an even-length field, applying the transform twice gives the field back |
| Btr2DataHelpers.PairsReversedAppend | helpers/Btr2DataHelpers.ts:20-25 | after an even-length prefix, the transform of a concatenation is the transforms in swapped order |
| Btr2DataHelpers.ChipNumberExample | helpers/Btr2DataHelpers.ts:19-21 | field 7 "FB2D770100004000" gives chip number "0040000001772DFB" |
| Btr2DataHelpers.DateTimeRoundTrip | helpers/Btr2DataHelpers.ts:34-48 | the `Y-M-D;h:m:s` timestamp parses back to year, month+1, day, hours, minutes, seconds |
| Btr2DataHelpers.DateTimeFields | helpers/Btr2DataHelpers.ts:44-47 | split at `;`, the timestamp is its date part and its time part |
| Btr2DataHelpers.DecimalUnpadded | helpers/Btr2DataHelpers.ts:44-45 | no number is zero-padded: a leading '0' occurs only for 0 itself |
| Btr2DataHelpers.DateTimeAllowed | helpers/Btr2DataHelpers.ts:44-47 | the timestamp only uses characters `cleanData` keeps |
| Btr2DataHelpers.CrcHex | helpers/Btr2DataHelpers.ts:139 | the CRC field is exactly 8 upper-case hexadecimal digits |
| Btr2DataHelpers.CrcHexRoundTrip | helpers/Btr2DataHelpers.ts:139 | the CRC field reads back in radix 16 as the checksum it was made from |
| Btr2DataHelpers.AckFrame | helpers/Btr2DataHelpers.ts:62-144 | the frame is STX, body, CRC field, ETX: its length is the body's plus 10 |
| Btr2DataHelpers.ResponseFrame | helpers/Btr2DataHelpers.ts:50-153 | a built frame is 10..128 bytes from STX to ETX; a failure is the missing-field `TypeError` or one of the buffer's two `RangeError`s |
| Btr2DataHelpers.WrittenFrame | helpers/Btr2DataHelpers.ts:59-148 | a frame the 128-byte buffer lets through is 10..128 bytes from STX to ETX |
| Btr2DataHelpers.AsciiWritten | helpers/Btr2DataHelpers.ts:67-139 | `buffer.write` at an offset changes only the bytes it covers, each to its character's low byte, cut at the buffer's end |
| Btr2DataHelpers.WriteAscii | helpers/Btr2DataHelpers.ts:67-139 | writes in place as `AsciiWritten` says; an offset past the end throws and leaves the buffer untouched |
| Btr2DataHelpers.WritePiece | helpers/Btr2DataHelpers.ts:66-130 | one write-and-advance step keeps the invariant that the buffer up to the cursor holds STX and the text written so far |
| Btr2DataHelpers.WriteRequestPart | helpers/Btr2DataHelpers.ts:66-102 | after the version, kind, client MAC, index and timestamp writes, the prefix is STX plus that text; fails exactly when a write starts past the end |
| Btr2DataHelpers.WriteResponsePart | helpers/Btr2DataHelpers.ts:104-129 | after the empty fields, server MAC and response index, the prefix is STX plus the text so far; fails exactly when a write starts past the end |
| Btr2DataHelpers.WriteAck | helpers/Btr2DataHelpers.ts:59-148 | the cursor-driven writes into the zeroed 128-byte buffer return exactly `WrittenFrame` of the body |
| Btr2DataHelpers.PrepareResponseBuffer | helpers/Btr2DataHelpers.ts:50-153 | returns exactly `ResponseFrame`: the acknowledgement of fields 2 and 3 of the masked data, or the error the buffer raises |
| Btr2DataHelpers.ResponseFrameIsAck | helpers/Btr2DataHelpers.ts:51-148 | a returned frame is `AckFrame` of the body built from masked fields 2 (server MAC) and 3 (packet index) and the timestamp; it reads back the definitions of `ResponseFrame` and `WrittenFrame`, and the proof that the cursor writes build that frame is `WriteAck`'s |
| Btr2DataHelpers.AckFrameReadable | helpers/Btr2DataHelpers.ts:8-15 | an acknowledgement whose body has only `cleanData` characters decodes, through `getDataWithoutHeadersAndCRC`, back to its body |
| Btr2DataHelpers.AckFrameCrc | helpers/Btr2DataHelpers.ts:132-140 | the CRC field holds the checksum of the bytes from after STX up to the field |
| Btr2DataHelpers.AckBodyFields | helpers/Btr2DataHelpers.ts:66-129 | the body splits at `;` into 18 fields: "1", "R", client MAC, index, date, time, seven empty, server MAC, index, three empty |
| Btr2DataHelpers.RequestPartFields | helpers/Btr2DataHelpers.ts:66-102 | the request half's fields: version, kind, client MAC, index, date, time |
| Btr2DataHelpers.ResponsePartFields | helpers/Btr2DataHelpers.ts:104-129 | the response half's fields: seven empty, server MAC, index, three empty |
| Btr2DataHelpers.CleanFieldsAllowed | helpers/Btr2DataHelpers.ts:51-55 | every field of masked data uses only kept characters |
| Btr2DataHelpers.AckFrameEchoes | helpers/Btr2DataHelpers.ts:80-140 | read back, the acknowledgement has the packet index at fields 3 and 14, the server MAC at 13, date and time at 4 and 5, and a CRC over its payload |
| Btr2DataHelpers.ResponseEchoesPacket | helpers/Btr2DataHelpers.ts:50-153 | the frame `prepareResponseBuffer` returns echoes fields 2 and 3 of the data it acknowledges |
| Btr2CommunicationHelpers.Missing | helpers/Btr2CommunicationHelpers.ts:20 | a UUID is missing exactly when it is required and not among the discovered ones |
| Btr2CommunicationHelpers.VerifyAllCharacteristicsAreDiscovered | helpers/Btr2CommunicationHelpers.ts:9-26 | true iff each of the five required UUIDs is some discovered characteristic's UUID; service, order and repetition are irrelevant |
| Btr2CommunicationHelpers.VerifyMonotone | helpers/Btr2CommunicationHelpers.ts:9-26 | discovering more characteristics never turns true into false |
| Btr2CommunicationHelpers.EstablishBtr2Bond | helpers/Btr2CommunicationHelpers.ts:28-38 | one read of the bonding characteristic, and the method never fails whatever the reply |
| Btr2CommunicationHelpers.ConnectToBtr2Device | helpers/Btr2CommunicationHelpers.ts:40-75 | result, new trace and remaining script are exactly those of `ConnectRun` |
| Btr2CommunicationHelpers.ConnectAttempts | helpers/Btr2CommunicationHelpers.ts:46-71 | the operations are [C], [C,D], or, only without `skipBonding`, one bonding read followed by one retry: at most two connects |
| Btr2CommunicationHelpers.ConnectOutcome | helpers/Btr2CommunicationHelpers.ts:45-74 | resolves only with all characteristics present; rejects with the missing-characteristics message or "Could not connect to the device"; a failed connect stops at once |
| Btr2CommunicationHelpers.BondReplyIgnored | helpers/Btr2CommunicationHelpers.ts:30-37 | the bonding probe's reply changes neither the outcome nor the operations |
| Btr2CommunicationHelpers.ByteOf | helpers/Btr2CommunicationHelpers.ts:103 | `Buffer.from([n])` keeps a value below 256 unchanged |
| Btr2CommunicationHelpers.Chunk | helpers/Btr2CommunicationHelpers.ts:95 | a chunk has 1 to 20 bytes |
| Btr2CommunicationHelpers.Issue | helpers/Btr2CommunicationHelpers.ts:93-124 | the writes performed are a prefix of the intended ones, all of them on success, at least one on failure |
| Btr2CommunicationHelpers.IssueStopsAtFailure | helpers/Btr2CommunicationHelpers.ts:93-124 | success iff every write is answered; on failure the last write performed is the first failing one, all before it answered, nothing after it |
| Btr2CommunicationHelpers.ChunkStep | helpers/Btr2CommunicationHelpers.ts:94-113 | one loop pass: a failed announcement or chunk write stops there; otherwise the rest follows |
| Btr2CommunicationHelpers.AckFromIsIssue | helpers/Btr2CommunicationHelpers.ts:94-119 | the loop's chunk-by-chunk writes are the acknowledgement's write list issued in order up to the first failure |
| Btr2CommunicationHelpers.SendChunk | helpers/Btr2CommunicationHelpers.ts:95-111 | appends [L, i] and the chunk at i to the trace, or stops as the loop's specification says |
| Btr2CommunicationHelpers.SendAcknowledgement | helpers/Btr2CommunicationHelpers.ts:93-120 | the loop's result, trace and remaining script are those of `AckFrom` from offset 0 |
| Btr2CommunicationHelpers.AcknowledgeDataRead | helpers/Btr2CommunicationHelpers.ts:77-125 | an absent device rejects with "device or data not set"; otherwise result, trace and script are those of `AcknowledgeRun` |
| Btr2CommunicationHelpers.ChunkCount | helpers/Btr2CommunicationHelpers.ts:94 | the loop runs ceil(L/20) times |
| Btr2CommunicationHelpers.ChunkWritesShape | helpers/Btr2CommunicationHelpers.ts:94-113 | from offset i, pair k is [L, i+20k] then the chunk at i+20k |
| Btr2CommunicationHelpers.AckWritesShape | helpers/Btr2CommunicationHelpers.ts:94-119 | for offsets 0, 20, 40, … below L: [L, offset] then the chunk there, 20 bytes except the last; then [L, L]; 2·ceil(L/20)+1 writes |
| Btr2CommunicationHelpers.ChunksConcatenate | helpers/Btr2CommunicationHelpers.ts:95-111 | the chunks from offset i, put together, are the frame from i on |
| Btr2CommunicationHelpers.AckPayloadIsFrame | helpers/Btr2CommunicationHelpers.ts:95-119 | the bytes sent to the write object are exactly the response frame |
| Btr2CommunicationHelpers.AcknowledgeRejectsEarly | helpers/Btr2CommunicationHelpers.ts:78-83 | empty data, or data no frame can be built for, rejects before any write and consumes no reply |
| Btr2CommunicationHelpers.AcknowledgeOutcome | helpers/Btr2CommunicationHelpers.ts:93-124 | resolves with true iff every write is answered, after exactly the frame's writes; otherwise "error acknowledging data read" right after the first failed write |
| Btr2CommunicationHelpers.RequestChunk | helpers/Btr2CommunicationHelpers.ts:181-191 | one pass: write [len, offset] to the read control point, read the object; tied to `ReadLoop` |
| Btr2CommunicationHelpers.ReadFirstChunk | helpers/Btr2CommunicationHelpers.ts:133-179 | the control read, the checks on its value, [len, 0] and the first object read, tied to `ReadTransfer` |
| Btr2CommunicationHelpers.ReadFrame | helpers/Btr2CommunicationHelpers.ts:133-199 | the transfer's result, trace and script are those of `ReadTransfer`, and the accumulated text is the data decoded as ASCII |
| Btr2CommunicationHelpers.ReadDataFromBtr2 | helpers/Btr2CommunicationHelpers.ts:127-222 | an absent device rejects with "device not set"; otherwise result, trace and script are those of `ReadRun` |
| Btr2CommunicationHelpers.ReadLoopStep | helpers/Btr2CommunicationHelpers.ts:180-199 | a pass whose two operations are answered issues [len, offset] and an object read, then loops from the new data length |
| Btr2CommunicationHelpers.AlternatingPrepend | helpers/Btr2CommunicationHelpers.ts:181-189 | a request below `len` and an object read in front of an alternating sequence keep it alternating |
| Btr2CommunicationHelpers.ReadLoopOps | helpers/Btr2CommunicationHelpers.ts:180-199 | the loop alternates requests [len, off] with off < len, at even positions, and object reads, at odd ones |
| Btr2CommunicationHelpers.ReadLoopOffsets | helpers/Btr2CommunicationHelpers.ts:179-197 | the first request asks for the starting offset; every later one for the total length of the data received so far |
| Btr2CommunicationHelpers.ReadLoopResult | helpers/Btr2CommunicationHelpers.ts:180-199 | the loop resolves only after whole passes, with offset ≥ len, returning the data with every received chunk appended |
| Btr2CommunicationHelpers.ReadTransferReadSide | helpers/Btr2CommunicationHelpers.ts:133-199 | a transfer starts with the control-point read and touches only the read control point and read object |
| Btr2CommunicationHelpers.ReadTransferWrites | helpers/Btr2CommunicationHelpers.ts:145-197 | the first write is [len, 0]; every write is [len, off] with the announced len and off < len |
| Btr2CommunicationHelpers.ReadTransferExit | helpers/Btr2CommunicationHelpers.ts:152-199 | a transfer resolves only when read pointer plus first chunk, or the data read, reaches len |
| Btr2CommunicationHelpers.ReadRejectsZeroLength | helpers/Btr2CommunicationHelpers.ts:145-150 | length 0 rejects with "No data left to read" after the single control read, before any write |
| Btr2CommunicationHelpers.ReadPointerEndsTransfer | helpers/Btr2CommunicationHelpers.ts:146-180 | the device's read pointer counts towards the offset: read pointer plus first chunk ≥ len ends the transfer after three operations, with just that chunk |
| Btr2CommunicationHelpers.ReadLoopRepeatsStalledRequest | helpers/Btr2CommunicationHelpers.ts:180-199 | an empty chunk leaves the offset where it was, and the same request goes out again |
| Btr2CommunicationHelpers.CrcMismatchRejects | helpers/Btr2CommunicationHelpers.ts:204-212 | a CRC mismatch rejects with "CRC32 mismatch" after the transfer, with no write to the write control point or write object |
| Btr2CommunicationHelpers.CrcMatchAcknowledges | helpers/Btr2CommunicationHelpers.ts:213-221 | a CRC match acknowledges the received text next; it resolves with the frame's payload iff the acknowledgement resolves, and otherwise rejects with "error acknowledging data read" |
| MobaBtr2BleContext.Decide | context/MobaBtr2BleContext.tsx:204-221 | halt iff BLE_DISABLED; disconnect iff not disabled and the error contains "is not connected"; reschedule otherwise |
| MobaBtr2BleContext.PassFailure | context/MobaBtr2BleContext.tsx:198-209 | an absent device fails with "device not set"; a rejected read fails with its own message; a frame that was read fails only when the chip number cannot be taken from it, with that error's message; the pass succeeds iff the read and the parse both do |
| MobaBtr2BleContext.Session.constructor | context/MobaBtr2BleContext.tsx:43-48 | the provider starts in BLE_DISABLED with no devices, readings or connection, so `isBleEnabled` is false and `lastScannedData` is absent |
| MobaBtr2BleContext.Session.LastScannedData | context/MobaBtr2BleContext.tsx:234-239 | absent iff there are no readings, otherwise the last reading; the events that change it state it: absent at mount and after BLE_DISABLED (`constructor`, `OnBleDisabled`), the chip number after a pass that read one and unchanged after a failed pass (`FinishPass`, `ReadPass`) |
| MobaBtr2BleContext.Session.IsBleEnabled | context/MobaBtr2BleContext.tsx:241-243 | true iff the state is not BLE_DISABLED; the events that change it state it: false at mount and after `stopDeviceScanAction`, true after `startDeviceScanAction` and DEVICE_DISCONNECTED |
| MobaBtr2BleContext.Session.StartDeviceScanAction | context/MobaBtr2BleContext.tsx:226-228 | from any state, BLE_ENABLED, so `isBleEnabled` holds; nothing else changes; the ids stay distinct |
| MobaBtr2BleContext.Session.StopDeviceScanAction | context/MobaBtr2BleContext.tsx:230-232 | from any state, BLE_DISABLED, so `isBleEnabled` is false; nothing else changes; the ids stay distinct |
| MobaBtr2BleContext.Session.StopDeviceScan | context/MobaBtr2BleContext.tsx:150-152 | scanning stops; nothing else changes |
| MobaBtr2BleContext.Session.StartDeviceScan | context/MobaBtr2BleContext.tsx:128-148 | SCANNING_DEVICES with an empty found list; scanning iff Bluetooth could be enabled |
| MobaBtr2BleContext.Session.AddDevice | context/MobaBtr2BleContext.tsx:112-126 | only a name containing "MOBA" while SCANNING_DEVICES counts; a known id changes nothing; a new device is appended and the state becomes DEVICE_FOUND; ids stay distinct |
| MobaBtr2BleContext.Session.DisconnectFromDevice | context/MobaBtr2BleContext.tsx:166-178 | a present device gets a cancel-connection; the connected device is cleared either way |
| MobaBtr2BleContext.Session.ConnectToDevice | context/MobaBtr2BleContext.tsx:154-164 | CONNECTING_TO_DEVICE, then connect with bonding; success stores the device and enters CONNECTED_TO_DEVICE; failure leaves CONNECTING_TO_DEVICE; the ids stay distinct |
| MobaBtr2BleContext.Session.OnBleDisabled | context/MobaBtr2BleContext.tsx:63-71 | scan stopped, found devices and readings emptied (`lastScannedData` absent), connected device's connection cancelled (its trace and remaining script) and cleared |
| MobaBtr2BleContext.Session.OnDeviceFound | context/MobaBtr2BleContext.tsx:78-85 | with no device found, back to BLE_ENABLED; otherwise stop scanning and connect to the first found device, whose trace grows by the connect's operations; the ids stay distinct |
| MobaBtr2BleContext.Session.OnConnected | context/MobaBtr2BleContext.tsx:89-92 | TRANSMITTING_DATA, and the read loop starts on the connected device; the ids stay distinct |
| MobaBtr2BleContext.Session.OnDeviceDisconnected | context/MobaBtr2BleContext.tsx:96-100 | cancel the connected device's connection (its trace and remaining script), empty the found list, back to BLE_ENABLED, so `isBleEnabled` holds |
| MobaBtr2BleContext.Session.OnStateEntered | context/MobaBtr2BleContext.tsx:61-105 | the effect switch, each case with the full effect of its handler: BLE_DISABLED stops, empties and cancels the connected device's connection (its trace and remaining script); BLE_ENABLED starts a scan; DEVICE_FOUND connects to the first found device (its operations, the stopped scan, the state and connected device on success and failure) or returns to BLE_ENABLED; CONNECTED_TO_DEVICE starts the read loop; DEVICE_DISCONNECTED cancels (trace and remaining script) and returns to BLE_ENABLED; the waiting states change nothing; the ids stay distinct |
| MobaBtr2BleContext.Session.ReadChipNumber | context/MobaBtr2BleContext.tsx:198-203 | the pass's read and chip-number parse, with the device's trace and script as `ReadRun` says |
| MobaBtr2BleContext.Session.FinishPass | context/MobaBtr2BleContext.tsx:202-221 | a chip number is appended after the earlier readings, which stay unchanged, and becomes `lastScannedData`; the decision is `Decide`'s; a disconnect cancels the reading device's connection (its trace and remaining script), clears the device and enters DEVICE_DISCONNECTED, and otherwise the reading device is untouched; the ids stay distinct |
| MobaBtr2BleContext.Session.ReadPass | context/MobaBtr2BleContext.tsx:197-222 | one pass of `continuousDataRead`: the readings grow by the chip number read, if any, which becomes `lastScannedData`; the loop halts, disconnects or reschedules as `Decide` says; the reading device's trace and remaining script are the pass's (`PassOps`, `PassRest`), plus the cancellation after a disconnect, so passes chain; the ids stay distinct |
| MobaBtr2BleContext.LostLinkEndsReading | context/MobaBtr2BleContext.tsx:207-209 | the library's "Device <id> is not connected" stops the loop unless BLE is disabled |
| MobaBtr2BleContext.ProtocolErrorsReschedule | context/MobaBtr2BleContext.tsx:204-216 | "device not set", "CRC32 mismatch", "No data left to read", the acknowledgement error and the missing-field error all reschedule |
| MobaBtr2BleContext.SilentDeviceEndsReading | context/MobaBtr2BleContext.tsx:197-219 | a device that answers nothing more fails the pass at the first read and ends the loop |
| Gatt.Device.Perform | helpers/Btr2CommunicationHelpers.ts:135-138 | the operation is appended to the trace and settled with the next scripted reply, or with "Device <id> is not connected" once the script is exhausted |
| Wire.IndexOf | helpers/Btr2DataHelpers.ts:9-10 | `indexOf` gives the first position holding the byte, or -1 iff there is none |
| Wire.AsciiDecode | helpers/Btr2DataHelpers.ts:14 | `toString('ascii')` keeps the length and maps each byte to its low seven bits |
| Wire.Split | helpers/Btr2DataHelpers.ts:18 | `split` gives at least one field, none holding the separator |
| Wire.SplitJoin | helpers/Btr2DataHelpers.ts:18 | splitting fields joined with the separator gives the fields back, when none holds it |
| Wire.NumberToStringRoundTrip | helpers/Btr2DataHelpers.ts:44-45 | a number printed in a radix from 2 to 16 reads back as the number |
| Wire.ContainsInfix | context/MobaBtr2BleContext.tsx:207 | `includes` finds every infix |

## Left out

- helpers/BlePlxHelpers.ts is not part of this model. Its permission prompts,
  Bluetooth enabling and service discovery are platform I/O. Discovery
  becomes one `Discover` operation that either fails or yields the device's
  characteristics, and enabling Bluetooth becomes a boolean parameter of
  `StartDeviceScan`.
- The CRC routines in `./crc` are not part of this model. They are
  function-valued parameters with values in [0, 2^32), and no polynomial is
  assumed.
- constants/Btr2Constants is not part of this model. The UUIDs are those
  app/(tabs)/index.tsx:38-46 defines under the same names. The delays
  `DISCOVER_SERVICES_DELAY` and `READ_WAIT_DELAY` are left out, along with
  `sleep`, `setTimeout`, `console.log` and `consoleLogBlePlxObject`.
- Base64 at the transport boundary is left out. Operations carry raw bytes.
- The service UUID is not recorded in the trace. Every operation goes to the
  MOBA BTR2 service.
- `connect`'s options (timeout, autoConnect) are left out.
- React machinery is left out: render cycles, `useMemo` identity, the stale
  closures of effects, and the interleaving of scan callbacks with effects.
  The session handles one event at a time. The effect for a new state runs
  when `OnStateEntered` is called, and each pass of the read loop runs when
  `ReadPass` is called.
- Btr2DataHelpers.GetChipNumberFromDataString: the `TypeError` of calling
  `match` on a missing field 7 (helpers/Btr2DataHelpers.ts:20) has an
  engine-dependent text; V8 and Hermes word it differently. The model uses the
  fixed text "Cannot read properties of undefined". It does not contain "is
  not connected", and that is all `Decide` depends on
  (`ProtocolErrorsReschedule` states it).
- `readData` (context/MobaBtr2BleContext.tsx:180-191) is never called. It is
  left out.
- Non-ASCII text: characters are written as their code's low byte and read
  back through the low seven bits. UTF-16 surrogates and multi-byte encodings
  are not modelled.
- A device that keeps answering with empty chunks makes the read loop repeat
  the same request indefinitely. A script is finite, so in the model such a
  loop ends when the script runs out, with "is not connected".
  `ReadLoopRepeatsStalledRequest` states the repetition itself.
- Btr2CommunicationHelpers.BondReplyIgnored: only the outcome and the
  operations are stated to be independent of the bonding reply. The
  remaining script is not, because the reply itself is consumed.
- MobaBtr2BleContext.ProtocolErrorsReschedule: stated for five of the
  rejection messages only. "Trying to access beyond buffer length" and
  "Could not parse chip number from data string" are covered by
  `Decide`'s general contract instead.
