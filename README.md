# GS2 LIDAR driver core in Dafny

This project models the acquisition core of the YDLIDAR GS2 driver and proves
properties of that model. It covers two layers.

- The driver (`YDlidarDriver`) talks to the sensor over a serial line. It
  frames host commands, finds answer headers, and reads scan frames of 160
  samples, one per module. It decodes each sample slot into a `node_info`,
  collects nodes into a reassembly list keyed by frame and module number, and
  hands a completed frame to the API layer through a one-slot mailbox. It also
  rotates a scan so that it ascends in angle, reads the per-module
  calibration records, and backs off between reconnection attempts.
- The API class (`CYdLidar`) grabs the mailbox and turns the nodes into a
  `LaserScan`. It computes angles, ignores sectors, filters ranges, applies
  the angular window and the fixed resolution, and resizes. It also rewrites
  Windows COM port names, checks the hardware state and parses debug nodes.

The model is imperative wherever the driver changes state step by step:
`LidarDriver.Driver` and `Lidar.CYdLidar` are classes with the source's fields.
Their methods carry the source's loops, with the invariants those loops need.
Each method is proved against a specification function on values:

- `Step` is one `waitPackage` call;
- `Collect` is one `waitScanData` call;
- `AddPoints` is `addPointsToVec`;
- `Published` is the publishing block of `cacheScanData`;
- `GrabSpec` is `grabScanData`;
- `Ascended` is `ascendScanData`;
- `ReadParas` is the `getDevicePara` loop;
- `Points` and `ScanOf` are the loop of `doProcessSimple`.

Lemmas then state what each function promises: round trips, invariants,
ordering, and the error paths. The serial line is an input sequence `rx` and
an output sequence `tx`. The calibration transform `angTransform` is a
function parameter. The outcomes of the event wait and of `connect` are
parameters too.

Modules, one per file:

| module | file | role |
|---|---|---|
| `Bytes` | bytes.dfy | octets, 16-bit words, truncated sums, bitwise or |
| `Protocol` | protocol.dfy | constants, `node_info`, the angle code |
| `Command` | command.dfy | host command frames (`sendCommand`) |
| `AnswerHeader` | answer_header.dfy | answer-header search (`waitResponseHeader`) |
| `ScanFrame` | scan_frame.dfy | scan-frame read of `waitPackage` |
| `SlotDecoder` | slot_decode.dfy | per-slot decoding of `waitPackage` |
| `Acquisition` | acquisition.dfy | one `waitScanData` call |
| `Reassembly` | reassembly.dfy | the `multi_package` list (`addPointsToVec`) |
| `Mailbox` | mailbox.dfy | `scan_node_buf` publication and `grabScanData` |
| `Backoff` | backoff.dfy | timeout counting and reconnection back-off |
| `DevicePara` | device_para.dfy | parameter answers of `getDevicePara` |
| `Ascend` | ascend.dfy | `ascendScanData` on an array |
| `LidarDriver` | driver.dfy | the `YDlidarDriver` class |
| `Lidar` | lidar.dfy | the `CYdLidar` class and the scan it builds |

## Model

| member | source | states |
|---|---|---|
| Protocol.Trunc | src/ydlidar_driver.cpp:803-811 | the C++ double-to-integer conversion truncates toward zero: the floor for non-negative values; for negative ones the integer in [x, x + 1) that is at most 0, so -2.5 gives -2 |
| Protocol.AngleCode | src/ydlidar_driver.cpp:802-813 | every stored angle code carries the check bit, whatever the transformed angle |
| Protocol.AngleCodeInTurn | src/ydlidar_driver.cpp:809-812 | for an angle in [0, 360] the code is the floor of the angle in 1/64 degree, shifted, plus the check bit; decoding gives back that floor |
| Protocol.AngleCodeBelowZero | src/ydlidar_driver.cpp:802-804 | a negative angle (down to -360) is lifted by a full turn before truncation |
| Protocol.AngleCodeAboveTurn | src/ydlidar_driver.cpp:806-808 | an angle above one turn (up to 720) is lowered by a full turn |
| Protocol.HalfTurnBoundary | src/ydlidar_driver.cpp:815-825 | within a turn, the code is at most 23041 exactly when the angle is below 180 + 1/64 degree, so this is the boundary the half-frame validity rule tests |
| Bytes.SingleByteChangeDetected | src/ydlidar_driver.cpp:759-764 | two byte strings that differ in exactly one position have different 8-bit sums |
| Command.CommandFrame | src/ydlidar_driver.cpp:286-306 | a command frame is 8 header bytes, the payload and one checksum byte; the checksum is the 8-bit sum of every byte after the address |
| Command.CommandFrameRoundTrip | src/ydlidar_driver.cpp:273-309 | every command whose payload the 16-bit length field can express parses back unchanged from its frame |
| Command.ParseCommandFrameExact | src/ydlidar_driver.cpp:273-309 | conversely, a frame that parses is exactly the frame of what it parses to |
| Command.ChecksumIgnoresAddress | src/ydlidar_driver.cpp:294-301 | the address never enters the checksum: frames that differ only in address agree from the type byte on |
| Command.EmittedFrameShortPayload | src/ydlidar_driver.cpp:298-306 | for payloads under 256 bytes the bytes written are the intended frame |
| Command.EmittedFrameDropsPayload | src/ydlidar_driver.cpp:302-303 | with a 256-byte payload the length field announces 256 bytes, none is written, and the output does not parse |
| LidarDriver.Driver.SendCommand | src/ydlidar_driver.cpp:273-309 | a disconnected driver fails and writes nothing; a connected one appends the header, only `payloadsize % 256` payload bytes and the checksum over the whole payload, which is exactly the command frame when the payload is shorter than 256 bytes |
| AnswerHeader.FirstMarkerFromLeast | src/ydlidar_driver.cpp:392-435 | the marker search returns the least position holding four sync bytes, and returns none exactly when there is no such position |
| AnswerHeader.HeaderAfterNoise | src/ydlidar_driver.cpp:392-435 | noise without sync bytes before a header is skipped, and that header is the one found |
| AnswerHeader.NoFalseMarker | src/ydlidar_driver.cpp:396-423 | three sync bytes followed by another byte open no header at any of those four positions |
| LidarDriver.Driver.WaitResponseHeader | src/ydlidar_driver.cpp:363-439 | success exactly when the line holds a header; the header is then the one at the first run of four sync bytes, and the line is left just after it; otherwise a timeout that leaves fewer than 8 bytes, a suffix of the line |
| ScanFrame.HeaderByte | src/ydlidar_driver.cpp:639-699 | each header byte either advances the scanner's position by one or resets it to 0 |
| ScanFrame.ScanBytesPrefix | src/ydlidar_driver.cpp:636-700 | within a chunk the scanner reaches position n exactly when each of the first n bytes passes its positional test, and its state is then the expected one |
| ScanFrame.ChunkAccepted | src/ydlidar_driver.cpp:669-693 | an accepted chunk sets the module address to byte 4, sums bytes 4-7 into the checksum, and ors the length bytes into what the length held |
| ScanFrame.SkippedChunks | src/ydlidar_driver.cpp:709-713 | the bytes dropped by the header phase are whole 8-byte chunks, none of which is a scan header |
| ScanFrame.FindHeaderSpec | src/ydlidar_driver.cpp:619-713 | the header phase, judging chunks on their own, finds the first chunk that is a scan header after skipped chunks, or times out with fewer than 8 bytes left and no header chunk |
| ScanFrame.HeaderAtHead | src/ydlidar_driver.cpp:702-708 | a scan header at the head of the line is found at once, with its address, checksum seed and length, and the header phase as written finds the same |
| ScanFrame.DroppedChunkLeavesLength | src/ydlidar_driver.cpp:685-699 | a chunk that starts with a non-sync byte ends at position 7 with its low length octet still in `sample_lens` |
| ScanFrame.StaleLengthBits | src/ydlidar_driver.cpp:608-691 | after a dropped chunk, the code as written announces the next header's length or-ed with the stale low octet; judged on its own the header gives its own length |
| ScanFrame.StaleLengthExample | src/ydlidar_driver.cpp:686-691 | a stale bit 0x01 turns a length of 0x0142 into 0x0143 |
| ScanFrame.ScanIgnoresLength | src/ydlidar_driver.cpp:639-699 | the length octets never steer the header switch: position, address and checksum evolve the same whatever `sample_lens` held |
| ScanFrame.AsWrittenFindsSameHeader | src/ydlidar_driver.cpp:608-713 | the header phase as written and as intended drop the same chunks, find the same header with the same address and checksum seed, time out together and leave the same bytes; only the length can differ |
| ScanFrame.PayloadPhaseShape | src/ydlidar_driver.cpp:716-757 | an accepted payload phase gives a frame made of the found header and the next `lens + 1` bytes, placed right after the skipped chunks |
| ScanFrame.PayloadBytes | src/ydlidar_driver.cpp:721-757 | after a scan header the payload phase takes exactly `lens + 1` bytes, the last being the checksum byte, and the rest of the line stays |
| ScanFrame.FrameParts | src/ydlidar_driver.cpp:737-764 | a header and `lens + 1` payload bytes form a frame whose checksum verdict compares the seeded 8-bit sum of the payload with its last byte |
| ScanFrame.PlacedFrame | src/ydlidar_driver.cpp:702-757 | the frame sits in the line right after the skipped chunks, and the rest follows it |
| ScanFrame.ReadFrameSpec | src/ydlidar_driver.cpp:615-764 | a successful frame read returns a well-formed frame that follows skipped chunks, with the rest of the line after it; a failed read reports a non-Ok result |
| ScanFrame.ScanFrameBytes | src/ydlidar_driver.cpp:702-704 | the frame a module sends is 8 header bytes, the body and the checksum |
| ScanFrame.ReadFrameAtHead | src/ydlidar_driver.cpp:615-764 | a frame at the head of the line is read whole, with its address; the checksum passes exactly when the crc byte equals the sum |
| ScanFrame.ReadFrameRoundTrip | src/ydlidar_driver.cpp:615-764 | every well-formed frame is read back whole with its address and a passing checksum, and the bytes after it stay; the frame read as written reads the same |
| ScanFrame.CorruptedPayloadDetected | src/ydlidar_driver.cpp:759-764 | a frame with one corrupted body byte is still read, but its checksum fails |
| LidarDriver.Driver.ScanChunk | src/ydlidar_driver.cpp:636-700 | the byte loop over one chunk leaves the scanner state that the byte-wise scanner function `ScanBytes` computes |
| LidarDriver.Driver.ReadScanHeader | src/ydlidar_driver.cpp:619-713 | the header loop ends as `FindHeader` says (header found with its fields, or timeout), and the line and module address with it |
| LidarDriver.Driver.ReadPayload | src/ydlidar_driver.cpp:716-757 | the payload read ends as `PayloadPhase` says: the frame and its checksum verdict, or the failure |
| LidarDriver.Driver.PayloadSum | src/ydlidar_driver.cpp:737-742 | the checksum loop yields the header's seed plus the 8-bit sum of all payload bytes but the last |
| LidarDriver.Driver.ReadScanFrame | src/ydlidar_driver.cpp:615-764 | the frame read returns what `ReadFrame` says, and leaves the line and the module address as it does |
| LidarDriver.Driver.AcceptScanFrame | src/ydlidar_driver.cpp:615-764 | after the read, the decoder holds the new frame, its address and its checksum verdict, and a failed verdict sets the sticky error flag |
| SlotDecoder.GoodSample | src/ydlidar_driver.cpp:787-825 | a node decoded from a good frame carries the check bit, and it keeps a distance only if its angle code is on the right side of the half-turn |
| SlotDecoder.DecodeSlot | src/ydlidar_driver.cpp:767-846 | the slot counter advances mod 160; the sync flag is exactly on slot 159, which clears the checksum flag; the package index counts frames, and after an error it is 255 with index 255; a bad frame gives distance 0, code CHECKBIT and default quality |
| SlotDecoder.StepKeepsInvariants | src/ydlidar_driver.cpp:615-846 | a call keeps the slot counter below 160 and the error flag sticky; a failure happens only at slot 0 and leaves it there; after an error every node has index 255 |
| SlotDecoder.BadFrameTaintsIndex | src/ydlidar_driver.cpp:759-775 | a frame whose checksum fails still yields a node, sets the error flag and gives index 255 and distance 0 |
| LidarDriver.Driver.WaitPackage | src/ydlidar_driver.cpp:600-849 | one call returns the node and leaves the decoder state and the line that `Step` computes |
| LidarDriver.Driver.DecodeCurrent | src/ydlidar_driver.cpp:767-846 | the decoding block produces the node and decoder state of `DecodeSlot` |
| Acquisition.CollectShape | src/ydlidar_driver.cpp:947-998 | a call returns at most `count` nodes; a failing call returns none; a successful call either completes the frame, with the sync flag on its last node only, or returns exactly `count` nodes; the slot counter advances by the number returned, mod 160 |
| Acquisition.CollectNext | src/ydlidar_driver.cpp:947-993 | one more `waitPackage` either ends the call (failure, frame complete or count reached) or extends the collected prefix by its node |
| Acquisition.StepNode | src/ydlidar_driver.cpp:837-846 | a successful call moves the slot counter by one, wrapping at 160, sets the sync flag exactly on the wrap, and reads the line only at slot 0 |
| Acquisition.RestOfFrame | src/ydlidar_driver.cpp:947-993 | at a slot i > 0, asking for at least the 160 - i remaining nodes returns exactly those, completes the frame and leaves the line alone |
| Acquisition.WholeFrame | src/ydlidar_driver.cpp:947-998 | at slot 0, on a line that delivers a frame, asking for 160 nodes or more returns the 160 nodes of that frame and stops right after it |
| LidarDriver.Driver.NextNode | src/ydlidar_driver.cpp:949-993 | one loop pass writes the next node into the buffer and either ends the call as `Collect` does or leaves one node fewer to collect |
| LidarDriver.Driver.CollectNodes | src/ydlidar_driver.cpp:947-998 | the loop fills the buffer prefix with the nodes `Collect` returns, ends with its result and decoder state, and leaves the rest of the buffer unchanged |
| LidarDriver.Driver.WaitScanData | src/ydlidar_driver.cpp:935-998 | a disconnected driver fails with count 0 and changes nothing; otherwise the result, count and buffer prefix are those of `Collect`, and the reassembly list receives the nodes exactly when the call completed a frame |
| Reassembly.EmptyPoints | src/ydlidar_driver.cpp:926-929 | a new entry holds 160 nodes, all the zero node (an assumption about the default-constructed package, listed under Left out) |
| Reassembly.FindKeyFromFirst | src/ydlidar_driver.cpp:909-910 | the key search returns the first entry with the frame and module number, and none exactly when no entry has them |
| Reassembly.Overwrite | src/ydlidar_driver.cpp:912 | the copy replaces the first `count` points and keeps the others |
| Reassembly.AddPointsSpec | src/ydlidar_driver.cpp:906-933 | with the key present, only the first entry with it changes; its points start with the nodes and the list is ready to send. Without the key, one entry with no copied points is appended and the flag stays. No entry is removed and every key stays in place |
| Reassembly.AddPointsTwice | src/ydlidar_driver.cpp:906-933 | adding the same nodes twice leaves them in the entry, the list the same length, and the entry ready to send |
| LidarDriver.Driver.AddPointsToVec | src/ydlidar_driver.cpp:906-933 | the list and the ready flag become `AddPoints` of their old values, and every entry keeps 160 points |
| Mailbox.Published | src/ydlidar_driver.cpp:574-586 | publishing keeps the buffer length |
| Mailbox.PublishedContents | src/ydlidar_driver.cpp:574-586 | with an entry for the key, the first 160 nodes become its points with the module number `moduleNum >> 1` stamped on the first; without one only the stamp changes; nodes beyond 160 never change |
| Mailbox.LatestWins | src/ydlidar_driver.cpp:574-586 | publishing twice leaves what the second publication wrote, whatever came before |
| Mailbox.GrabSpec | src/ydlidar_driver.cpp:1001-1027 | success exactly when the event fired and nodes are pending; it copies min(count, pending) nodes and empties the slot. A timeout returns count 0, an empty slot fails with the count untouched, and any other event outcome fails with count 0 |
| Mailbox.GrabAfterPublish | src/ydlidar_driver.cpp:1001-1027 | a grab after a publication sees the published nodes, up to 160, and a second grab without a new publication fails |
| LidarDriver.Driver.PublishScan | src/ydlidar_driver.cpp:570-592 | with nothing ready, nothing changes; otherwise the buffer becomes `Published` of the old buffer, 160 nodes are pending, and the ready flag is cleared |
| LidarDriver.Driver.CopyPoints | src/ydlidar_driver.cpp:577 | the first 160 buffer nodes become the entry's points, and the others stay |
| LidarDriver.Driver.GrabScanData | src/ydlidar_driver.cpp:1001-1027 | the result, the count handed back, the pending count and the caller's buffer are those of `GrabSpec` |
| Backoff.NextRetryCount | src/ydlidar_driver.cpp:469-473 | the retry counter goes up by one, capped at 100 |
| Backoff.NextConnectCount | src/ydlidar_driver.cpp:480-484 | the connect counter goes up by one, capped at 25 |
| Backoff.ConnectDelays | src/ydlidar_driver.cpp:476-487 | the k-th failed connect of a round waits 200 * min(k + 1, 25) ms |
| Backoff.ConnectDelayShape | src/ydlidar_driver.cpp:480-486 | connect waits never decrease, grow by 200 ms per failure, and plateau at 5 s from the 25th failure on |
| Backoff.ReconnectAttempts | src/ydlidar_driver.cpp:476-487 | the inner loop counts the failed connects before the first success, stops at once when auto-reconnect is off, and waits `ConnectDelays` in between |
| Backoff.RetryCountFromZero | src/ydlidar_driver.cpp:469-475 | from the reset value 0, the n-th round waits 100 * min(n, 100) ms, never more than 10 s |
| Backoff.TimeoutStep | src/ydlidar_driver.cpp:535-564 | Ok proceeds; a timeout counted while at most `DEFAULT_TIMEOUT_COUNT` is retried with the counter up by one; anything else reconnects when auto-reconnect is on and exits otherwise |
| Backoff.TimeoutEscalation | src/ydlidar_driver.cpp:535-560 | consecutive timeouts are soft until the counter passes `DEFAULT_TIMEOUT_COUNT`; the next one reconnects or exits |
| LidarDriver.Driver.ReconnectRounds | src/ydlidar_driver.cpp:469-475 | the retry counter after the given rounds of reconnection is `RetryCountAfter` of its old value |
| LidarDriver.Driver.HandleAnswer | src/ydlidar_driver.cpp:535-564 | the pass stops exactly on an exit, or on a reconnect that fails, and stopping clears `isScanning`; otherwise the timeout counter is the retried count, or 0. The retry counter is reset on Ok and advanced on a reconnect |
| LidarDriver.Driver.AfterWait | src/ydlidar_driver.cpp:535-592 | the answer is handled as `TimeoutStep` says, then, unless the pass stops, a ready entry is published and the flag cleared |
| LidarDriver.Driver.CacheScanPass | src/ydlidar_driver.cpp:530-593 | one pass of the acquisition loop collects as `Collect` says, updates the reassembly list as `AddPoints` says, handles the answer as `TimeoutStep` says, and publishes exactly when it goes on and an entry is ready |
| DevicePara.ParaBytes | src/ydlidar_driver.cpp:1171 | the record as read into memory is 10 bytes |
| DevicePara.ParaBytesRoundTrip | src/ydlidar_driver.cpp:1171 | reading the bytes of a record gives back the record |
| DevicePara.ParaOfRoundTrip | src/ydlidar_driver.cpp:1171 | writing out a parsed record gives back its bytes |
| DevicePara.CheckPara | src/ydlidar_driver.cpp:1162-1188 | an answer is accepted exactly when its type is the parameter query, it announces at least 9 bytes, at least `size + 1` bytes arrive, the checksum matches and the module index is at most 2; an accepted answer yields the record and consumes exactly 10 bytes |
| DevicePara.SealedAccepted | src/ydlidar_driver.cpp:1162-1188 | a record sealed by a module with index at most 2 is accepted behind its header |
| DevicePara.ParaRoundTrip | src/ydlidar_driver.cpp:1159-1188 | a module's full answer is read back as its sealed record, and the line is left after it |
| DevicePara.AddressIsSummed | src/ydlidar_driver.cpp:1173-1183 | changing only the header's address of an accepted answer makes the checksum fail |
| DevicePara.CorruptedRecordRefused | src/ydlidar_driver.cpp:1173-1183 | corrupting one byte of an accepted record makes the answer refused |
| DevicePara.ReadPara | src/ydlidar_driver.cpp:1159-1188 | one answer times out exactly when no header arrives, and succeeds exactly when its record is accepted |
| DevicePara.AnswerRead | src/ydlidar_driver.cpp:1159-1188 | a well-formed answer at the head of the line is read in full, with its module index and sealed record |
| DevicePara.ThreeAnswers | src/ydlidar_driver.cpp:1157-1199 | three well-formed answers in a row are all accepted; each record is stored under its module index, a later answer for the same index wins, and the line is left after the third |
| LidarDriver.Driver.ParaSum | src/ydlidar_driver.cpp:1173-1180 | the checksum loop yields `ParaChecksum`: address, type and both length bytes, then `size` bytes from the start of the record on, summed mod 256 |
| LidarDriver.Driver.ReadParaAnswer | src/ydlidar_driver.cpp:1159-1188 | one pass of the loop returns the result of `ReadPara`; on success it also returns the module index and the record, and leaves the line after the record |
| LidarDriver.Driver.GetDevicePara | src/ydlidar_driver.cpp:1139-1203 | disconnected: it fails and changes nothing. Connected: it sends the parameter query, and the result and stored records are those of `ReadParas` over three answers, so the records stored before a failing answer are kept |
| LidarDriver.Driver.constructor | src/ydlidar_driver.cpp:41-97 | the driver starts disconnected and not scanning, with auto-reconnect on, intensities off, retry count 0, the initial decoder state, frame number 0 and an empty mailbox |
| Ascend.Recode | src/ydlidar_driver.cpp:1048-1051 | a recoded angle keeps the node's own check bit |
| Ascend.FirstNonZeroFrom | src/ydlidar_driver.cpp:1034-1037 | the back-fill search stops at the first node with a distance at or after its start, or at the end if there is none |
| Ascend.FirstNonZero | src/ydlidar_driver.cpp:1034-1060 | the first node with a distance exists exactly when not all distances are 0 |
| Ascend.Filled | src/ydlidar_driver.cpp:1034-1102 | the filled buffer has the same length, node by node as described by `FilledAt` |
| Ascend.ZeroPosFrom | src/ydlidar_driver.cpp:1104-1118 | `zero_pos` is 0, or the position of a drop of more than half a turn |
| Ascend.ZeroPosFromFirst | src/ydlidar_driver.cpp:1104-1118 | `zero_pos` is the first drop of more than half a turn; when it is 0, there is none |
| Ascend.FilledSpec | src/ydlidar_driver.cpp:1034-1102 | filling changes only angle codes, keeps every check bit and leaves every node with a distance as it was |
| Ascend.RotateSpec | src/ydlidar_driver.cpp:1120-1131 | rotating left by z moves node (k + z) mod n to position k, and is a permutation |
| Ascend.AscendedRotates | src/ydlidar_driver.cpp:1104-1131 | the result is the filled buffer rotated at its first drop, and a permutation of it |
| Ascend.AscendedSpec | src/ydlidar_driver.cpp:1030-1134 | node k of the result is the original node (k + zero_pos) mod n with only its angle code changed and its check bit kept, and unchanged when it has a distance |
| Ascend.AscendedIdentity | src/ydlidar_driver.cpp:1030-1134 | a buffer with a distance everywhere and no drop of more than half a turn is left as it was |
| Ascend.FillsCompose | src/ydlidar_driver.cpp:1034-1102 | the three fill loops run one after another produce `Filled` |
| Ascend.BackFillCheckBits | src/ydlidar_driver.cpp:1048-1051 | every back-filled code keeps its node's check bit |
| Ascend.BackFill | src/ydlidar_driver.cpp:1038-1052 | nodes 0 to f get the back-filled angle codes, the others and every other field stay |
| Ascend.ForwardFill | src/ydlidar_driver.cpp:1066-1080 | nodes from l on get the forward-filled codes, the others and every other field stay |
| Ascend.InteriorFill | src/ydlidar_driver.cpp:1086-1102 | every node after node 0 without a distance gets node 0's angle plus k increments, the others stay |
| Ascend.FindZeroPos | src/ydlidar_driver.cpp:1104-1118 | the search returns `ZeroPos` of the buffer |
| Ascend.RotateLeft | src/ydlidar_driver.cpp:1120-1131 | the buffer becomes its rotation left by z |
| Ascend.AscendScanData | src/ydlidar_driver.cpp:1030-1134 | fails exactly when no node has a distance; the buffer becomes `Ascended` of what it was |
| Lidar.Ceil | src/CYdLidar.cpp:259-260 | `std::ceil` gives the least integer not below its argument |
| Lidar.NormalizeAngle | src/CYdLidar.cpp:230 | the normalised angle lies in (-pi, pi] and differs from the input by whole turns |
| Lidar.Filtered | src/CYdLidar.cpp:213-242 | the point's angle is the node's angle with offset, reversion, inversion and normalisation. Outside ignored sectors a valid range is kept with its intensity, and an invalid one gives range and intensity 0. In an ignored sector the range is 0, and the intensity survives only if 0 is a valid range |
| Lidar.Points | src/CYdLidar.cpp:211-269 | never more points than nodes |
| Lidar.Resize | src/CYdLidar.cpp:271-273 | exactly n points: the first points kept, the rest zero points |
| Lidar.PointsInvariant | src/CYdLidar.cpp:211-268 | every kept point lies in the angular window; its range is 0 or valid, and an invalid range carries no intensity |
| Lidar.PointsAppend | src/CYdLidar.cpp:211-269 | points keep the order of the nodes: the points of a concatenation are those of its parts, in order |
| Lidar.PointsContents | src/CYdLidar.cpp:211-269 | the points are exactly the filtered nodes whose angle is kept: each point comes from such a node and each such node gives a point |
| Lidar.FixedSlotInWindow | src/CYdLidar.cpp:258-264 | at fixed resolution with a non-empty window and at least one slot, every angle in the window falls in a slot |
| Lidar.KeptInWindow | src/CYdLidar.cpp:246-267 | in that configuration a point is kept exactly when its angle lies in the window |
| Lidar.ScanPoints | src/CYdLidar.cpp:180-273 | the scan's module number is the first node's index; at fixed resolution it holds exactly `fixedSize` points, the kept points first, then zero points; otherwise exactly the kept points |
| Lidar.ScanIncrements | src/CYdLidar.cpp:187-204 | the window and ranges are as configured; the angle increment times (points - 1) spans the window, and the time increment times (count - 1) is the scan time |
| Lidar.PortName | src/CYdLidar.cpp:596-605 | the name is left alone or prefixed by `\\.\`, and it is prefixed exactly for names of four or more characters starting with "com" in any case that are longer than four characters or end in a character above '4' |
| Lidar.PortNameIdempotent | src/CYdLidar.cpp:596-605 | rewriting a rewritten name changes nothing |
| Lidar.CYdLidar.constructor | src/CYdLidar.cpp:50-81 | no driver yet, not scanning, options and port as configured, a fresh node array of `MAX_SCAN_NODES` |
| Lidar.CYdLidar.IsRangeIgnore | src/CYdLidar.cpp:142-154 | the answer is true exactly when some configured sector contains the angle |
| Lidar.CYdLidar.ProcessNode | src/CYdLidar.cpp:213-267 | the point is `Filtered` of the node, and it is pushed exactly when `Kept` says so |
| Lidar.CYdLidar.CollectPoints | src/CYdLidar.cpp:211-269 | the loop pushes exactly `Points` of the grabbed nodes |
| Lidar.CYdLidar.DoProcessSimple | src/CYdLidar.cpp:160-286 | without hardware it fails with the hardware error and changes nothing. Otherwise the grab is as `GrabSpec` says, and it succeeds exactly when the grab does, producing `ScanOf` of the grabbed nodes |
| Lidar.CYdLidar.CheckComms | src/CYdLidar.cpp:576-626 | a missing driver is created; a connected one is left alone and succeeds; otherwise the port name is rewritten, the connect outcome decides the result, and success leaves the driver connected with this object's intensity setting |
| Lidar.CYdLidar.ParsePackageNode | src/CYdLidar.cpp:288-331 | the debug field named by the node's index receives that node's debug byte and no other field changes; the maximum index rises to the node's index when it is higher and below 100, so it never falls and stays below 100 |

## Left out

- Clocks and timeouts. The timers of `waitResponseHeader`, `waitPackage`,
  `waitScanData` and `waitForData` are not modelled. A read that finds too
  few bytes on the line is a timeout, and the whole line is what arrives
  within the timeout.
- Threads, locks and events. `_dataEvent.wait` is an input (`WaitOutcome`).
  `ScopedLocker`, `_lock` and the acquisition thread are not modelled.
  `CacheScanPass` is one pass of the acquisition loop.
- Serial I/O. `connect`, `flushSerial`, `disableDataGrabbing`, `delay` and
  the serial object are not modelled. The line is an input sequence and the
  writes are an output sequence. The outcome of `connect` is an input of
  `CheckComms` and `ReconnectAttempts`.
- Payload chunking: the payload read of `waitPackage` takes the payload in
  one read. Stale bytes left in `globalRecvBuffer`, and in the packed frame
  buffer beyond the current frame, are not modelled.
- The slot layout `slotOf` (which bytes of the frame buffer hold the
  distance and quality of each of the 160 slots) is a calibration function
  parameter, because the packed frame structure is declared in a header
  that is not part of this model.
- `angTransform` is a calibration function parameter, because its
  trigonometry uses floating point. Storing the coefficients as doubles
  (`d_compensateK0` and the rest, and `bias`, lines 1193-1197) is not
  modelled either. The raw record is stored per module instead.
- LidarDriver.Driver.GetDevicePara: the value left in the `info` out
  parameter is not modelled, and neither is the `delay(5)` between answers.
  The memory after the record that the checksum loop may read is a function
  parameter.
- The inner loop of `addPointsToVec` over the previous frame (lines 914-921)
  has no effect and is not modelled.
- The `stamp` and `scan_frequence` fields, the `local_scan` sync flag writes
  of `cacheScanData`, and the transmission-delay timing of `waitScanData`
  (lines 964-986) are not modelled.
- LidarDriver.Driver.CacheScanPass models one pass only. It leaves out the
  warm-up `waitScanData(local_buf, 200)` before the loop (line 525) and the
  loop itself. The outer loop of `checkAutoConnecting` and `startAutoScan`
  are not modelled either: whether a reconnect succeeded is an input.
- Backoff.ReconnectAttempts stops when the given connect outcomes run out,
  where the driver would keep trying.
- Floating point: angles, ranges and times are modelled as reals, and the
  `float` casts of `doProcessSimple` and `ascendScanData` are not modelled.
  The angle and time increments of the scan configuration are divided by
  the point count less one. A division by zero there, which gives infinity
  or NaN in IEEE arithmetic, gives 0 (`Quotient`). At fixed resolution a
  zero angle increment, from a window of zero width with two slots or more,
  makes the slot quotient infinite or NaN, and the point is dropped. With
  one slot the increment is an IEEE infinity and every angle in a window of
  positive width falls into slot 0, which `FixedSlotOk` states directly.
- `angles::normalize_angle` is taken as the reduction to (-pi, pi], because
  its definition is not part of this model.
- The `uint16_t` loop counter of `isRangeIgnore` is not modelled: an ignore
  list of 65536 entries or more would make the source loop forever.
- The `CYdLidar` option setters and getters, `initialize`, `turnOn`,
  `turnOff`, `checkLidarAbnormal`, `handleDeviceInfoPackage`, `startScan`,
  `stopScan`, `setDeviceAddress`, `checkTransDelay` and the version printing
  are orchestration outside this core, and are not modelled.
- `node_info` in this model carries no `debug_info`, so `ParsePackageNode`
  takes the node's debug bytes as a separate parameter. The `LaserDebug`
  declaration is not part of this model; its field names follow their uses.
- The values of `DEFAULT_TIMEOUT_COUNT`, `PackageMaxModuleNums`, the sync
  bytes and the command codes come from headers that are not part of this
  model. The values used (`DefaultTimeoutCount` 1, `MaxModules` 3, 0xA5,
  0x63, 0x61) are representative. The proofs depend only on the sizes and
  on the angle encoding.
- The reassembly list's `frameNum` stays 0, as no code in the core changes
  it. The initial `multi_package` entries are a constructor parameter.
- Logging (`printf` and `fprintf`) is not modelled.
- A scan header announcing 0xFFFF bytes makes `sample_lens + 1` wrap to 0,
  on which the payload loop bound `recvSize - 1` underflows and the code's
  behaviour is undefined. `ScanFrame.PayloadPhase` gives that read `Fail`.
- EmptyPoints (Reassembly.EmptyPoints): a new reassembly entry is taken to
  hold 160 zero nodes. The source default-constructs `GS2_Multi_Package`
  (lines 926-929), and the declaration that would say whether its points
  are zeroed is not part of this model. The assumption shows through
  `Mailbox.Published` when an entry has received fewer than 160 nodes.
- The driver's frame read runs the corrected header phase of the first
  Findings row (`ScanFrame.FindHeader`). The code as written keeps the
  length octets of dropped chunks (`ScanFrame.FindHeaderAsWritten`), so
  after a dropped chunk that reached the length bytes the code reads a
  longer or different frame than the model. Both phases drop the same
  chunks and find the same header (`ScanFrame.AsWrittenFindsSameHeader`),
  and a header at the head of the line is read the same by both
  (`ScanFrame.HeaderAtHead`). The members below are affected.
- ScanChunk (LidarDriver.Driver.ScanChunk): starts the length octets
  cleared for every chunk, where the code keeps `sample_lens` across
  dropped chunks.
- ReadScanHeader (LidarDriver.Driver.ReadScanHeader): follows
  `ScanFrame.FindHeader`, the intended header phase, not
  `ScanFrame.FindHeaderAsWritten`.
- ReadFrameSpec (ScanFrame.ReadFrameSpec): is stated for the intended frame
  read; after a dropped chunk the code's frame length can carry stale bits.
- ReadScanFrame (LidarDriver.Driver.ReadScanFrame): returns the intended
  `ScanFrame.ReadFrame`, not `ScanFrame.ReadFrameAsWritten`.
- AcceptScanFrame (LidarDriver.Driver.AcceptScanFrame): accepts the frame
  of the intended frame read.
- WaitPackage (LidarDriver.Driver.WaitPackage): follows `SlotDecoder.Step`,
  whose frame read is the intended one.
- NextNode (LidarDriver.Driver.NextNode): follows `Acquisition.Collect`
  over the intended frame read.
- CollectNodes (LidarDriver.Driver.CollectNodes): its nodes come from the
  intended frame read.
- WaitScanData (LidarDriver.Driver.WaitScanData): its nodes come from the
  intended frame read.
- CacheScanPass (LidarDriver.Driver.CacheScanPass): its pass collects over
  the intended frame read.
- `ascendScanData` works on the whole array, whose length is `count`.

## Findings

| source | as written | input that shows it | evidently intended | confidence | as-written member | corrected member |
|---|---|---|---|---|---|---|
| src/ydlidar_driver.cpp:608-691 | `sample_lens` is declared once per `waitPackage` call. Each header chunk ors its length bytes into it, and nothing clears it when a chunk is dropped | a chunk `[0x00, A5, A5, A5, A5, addr, 0x63, 0x01]` followed by a valid header announcing 0x0142 bytes: the length is read as 0x0143 | each chunk's length is judged on its own, so the header's own length is used | not executed | ScanFrame.FindHeaderAsWritten | ScanFrame.FindHeader |
| src/ydlidar_driver.cpp:302-303 | the payload is written with a byte count of `(uint8_t)payloadsize`, while the length field and the checksum cover every payload byte | a 256-byte payload: the header announces 256 bytes, no payload byte is written, and the frame does not parse | the whole payload is written | not executed | Command.EmittedFrame | Command.CommandFrame |

The first row is exhibited by `ScanFrame.StaleLengthBits` and
`ScanFrame.StaleLengthExample`. The corrected header phase is specified by
`ScanFrame.FindHeaderSpec`. The driver's frame read runs the corrected
phase: `ScanFrame.AsWrittenFindsSameHeader` shows that the phase as written
finds the same header and differs only in the length, and "## Left out"
lists each driver member this affects. The second row is exhibited by
`Command.EmittedFrameDropsPayload`. The corrected frame is proved by
`Command.CommandFrameRoundTrip`. `LidarDriver.Driver.SendCommand` writes
what the code as written writes, `Command.EmittedFrame`, and this is the
command frame for every payload shorter than 256 bytes. Every command the
driver sends has an empty payload.
