# node-atecc in Dafny

A model of the core of node-atecc, a Node.js driver for the Microchip
ATECC508A/608A secure element on an I2C bus, and of the DER encoder its
certificate-signing code uses. The model covers four groups of logic.

- **The wire protocol.**
  - The CRC-16 every frame carries. It uses polynomial 0x8005, takes data bits least significant first, and starts from a zero register with no final XOR.
  - The command frame: word address 0x03, then count, opcode, param1, param2 little-endian and data, then the CRC little-endian.
  - Validation of the response packet: count byte, CRC check, body.
  - The three executors in the repository:
    - `atcaExecuteCommandAsync` and its wake/idle/sleep helpers in lib/ecc.js (module `EccExec`);
    - `execAsync` and its helpers in lib/commands/exec.js (module `CommandsExec`);
    - the bus helpers and `sleepWakeAsync` of src/commands/exec.js (module `SrcExec`).
  - The poll loop that lib/ecc.js and lib/commands/exec.js share (module `Polling`).
  - The I2C bus is an oracle (module `I2c`, class `Bus`):
    - a script of read outcomes (data, NACK/ENXIO, other error) and one of write outcomes;
    - a ghost log of every transfer and delay;
    - a millisecond clock that only moves forward and that `sleepWakeAsync` reads.
- **Zone memory.**
  - Zone addressing and the zone-size table, in both copies (module `Zone`).
  - The Read, Write, Lock and GenKey packet builders (module `Builders`), and the packet of `atRead` in lib/atca_command.js with the size constants it uses (module `AtcaCommand`).
  - The byte-range reader and writers, which split a range into 32-byte block and 4-byte word accesses (module `ByteRange`).
  - The decoding of the 128-byte configuration zone and the provisioning sequence of lib/ecc2.js (module `Chip`).
- **DER.**
  - The encoders of lib/der.js for length octets, INTEGER and Ecdsa-Sig-Value (module `Der`).
  - The TLV builders of lib/csr.js: length octets, BIT STRING, INTEGER, SEQUENCE, SET, UTF8String, base-128 and OBJECT IDENTIFIER (module `Csr`).
  - Both follow ITU-T X.690; the signature value follows section 2.2.3 of RFC 3279.
- **The CSR template** of lib/cert.js and the element splice and TBS slice of lib/ecc.js (module `Cert`). The lemmas take apart the golden template bytes: a PKCS#10 request per section 4 of RFC 2986, carrying a P-256 key and an ECDSA-with-SHA256 signature.

The imperative parts of the source are written as methods with loops:
- the CRC's nested bit loop;
- the poll loop;
- the wake retry loops;
- the `sleepWakeAsync` loop;
- the byte-range loops;
- the DER length and INTEGER loops;
- the 16-slot loop of `chipStatusAsync`;
- the in-place element copy, on an `array`.

Each method is proved against a specification function, and the properties of the source are proved about those functions. The pure parts are functions with lemmas.

Where the JavaScript is plainly broken, the model follows what the sibling copies and the doc comments intend. Each such place carries a comment in the Dafny:
- `trim` is never initialised in lib/der.js:83, which breaks every call that takes the trimming branch (see "## Findings");
- `L` uses the buffer where its length belongs (lib/csr.js:11-12);
- divisions are not floored (lib/ecc.js:983, 989);
- the copy is only a "memcpy" comment (lib/ecc.js:1008);
- there is a redeclaration, a misplaced parenthesis and wrong slice arguments (lib/ecc.js:1302, 1304, 1318);
- getEffectiveOffset tests the undefined `cert_dev` where `cert_def` is meant (lib/ecc.js:1280), and assigns the undeclared `sn_offset` inside a class body, which is strict code, so it throws (lib/ecc.js:1283);
- getTBS reads the undefined `effect_offset` where `eff_offset` is meant (lib/ecc.js:1315);
- lib/commands/write.js uses the undeclared constants `ATCA_WRITE` (line 11), `ATCA_ZONE_DATA` (line 30) and `ATCA_ZONE_CONFIG` (lines 43 and 49), where the Write opcode 0x12 and the zones 2 and 0 are meant. As written, `atWriteAsync` throws a ReferenceError when it reaches `opcode:`, and `writeBytesZoneAsync` throws one at line 30 for every valid zone;
- a wrong method name (lib/commands/write.js:51);
- a misspelt `wakeAysnc` and a missing parenthesis (src/commands/exec.js:45, 77);
- src/commands/exec.js calls the free functions `i2cReadAsync` and `i2cWriteAsync` (lines 51, 61, 63, 77 and 100) but never defines or imports them. The only definitions are the `this`-bound methods of lib/commands/exec.js:27-39. The model gives them their evident meaning: a read or a write of the bus device. The file also has no `module.exports`, although test/exec.js:6-16 takes its names from it;
- `const atcacertCreateCsr (csr_def) {` (lib/cert.js:139) is not valid JavaScript. lib/cert.js also exports nothing, although index.js:6 takes `createCsrAsync` from it;
- a misspelt `parma2` (src/commands/commands.js:84).

Some of these are syntax errors: lib/ecc.js:1302 and 1304, src/commands/exec.js:77 and lib/cert.js:139. Because of them, none of the three files lib/ecc.js, src/commands/exec.js and lib/cert.js can be loaded. Every member that cites lib/ecc.js or src/commands/exec.js models the program they intend, not one that runs. The rows citing lib/cert.js describe the constant template bytes and the definition written in that file, not a module that loads.

Where the code runs but computes something other than what its authors evidently meant, the model has a member for the code as written and one for the intended code. These are listed under "## Findings".

## Model

| member | source | states |
|---|---|---|
| Crc16.ComputeCrc | lib/ecc.js:724-742 | The nested bit loop computes Crc(data): for each byte, bits least significant first, the 16-bit register shifts left and takes 0x8005 when the data bit differs from the bit shifted out. The result is below 65536. The copies at lib/commands/exec.js:15-30 and src/commands/exec.js:15-30 are the same loop, so all three agree on every input. |
| Crc16.CrcEmptyAndBounded | lib/ecc.js:726-741 | The CRC of no bytes is 0, and every CRC fits in 16 bits. |
| Crc16.FeedAppend | lib/ecc.js:729-738 | Feeding a + b equals feeding a and then b from that register. |
| Crc16.CrcAppend | lib/ecc.js:729-738 | So the CRC of a concatenation is the CRC of its prefix continued with the rest. |
| Crc16.WakeSentinelCrc | lib/commands/exec.js:50 | The CRC of 04 11 is 0x4333, so the wake answer 04 11 33 43 ends in a correct CRC. |
| Zone.Address | lib/ecc.js:752-760 | The address is block*8 + word for Config and OTP, and block*256 + slot*8 + word for Data (slot below 32). It is always below 65536. |
| Zone.AtcabGetAddr | lib/ecc.js:746-763 | Fails with BAD_PARAM exactly when zone & 3 is 3; otherwise gives the address of zone & 3. |
| Zone.GetAddr | src/commands/commands.js:42-52 | The same, with 'bad zone' as the error. |
| Zone.GetAddrCopiesAgree | src/commands/commands.js:42-52 | getAddr and atcabGetAddr succeed on the same inputs and give the same address. |
| Zone.GetAddrIgnoresHighBits | src/commands/commands.js:43-48 | The 0x40 and 0x80 zone flags and the offset bits above bit 2 do not change the address. |
| Zone.GetAddrExamples | src/commands/commands.js:46-50 | Data slot 3, block 1, offset 2 gives 282; Config block 2, offset 5 gives 21; zone 3 gives 'bad zone'. |
| Zone.AddressInjective | lib/ecc.js:753-760 | Within a zone, different (block, word) places, and for Data different slots, get different addresses. |
| Zone.AtcabGetZoneSize | lib/ecc.js:938-958 | Defined exactly for Config, OTP and Data slots 0-15 (BAD_PARAM otherwise). Every size is a multiple of 4 between 36 and 416. |
| Zone.GetZoneSize | src/commands/commands.js:54-73 | Defined on the same inputs. The error is 'bad slot' exactly for a Data zone and 'bad zone' otherwise. |
| Zone.ZoneSizeCopiesAgree | src/commands/commands.js:54-73 | Both zone-size tables succeed on the same inputs and give the same size. |
| Zone.ZoneSizeTable | lib/ecc.js:939-956 | Config is 128 and OTP 64. Data slot 7 is 36, slot 8 is 416, and slots 9 and 15 are 72. Slot 16 is rejected by both copies. |
| AtcaCommand.SizeConstantsConsistent | lib/atca_command.js:236-401 | The packet overhead is 3 (count byte and two CRC bytes). Every response size is its data size plus 3, and the smallest response is 4. Command sizes are 7 plus their data: GenKey with other data is 7 + 3, ECDH 7 + 64, Nonce 7 + 20, 32 or 64. |
| AtcaCommand.ReadRspSize | lib/atca_command.js:842-846 | A Read answers with 3 + 32 bytes when param1 bit 7 is set and 3 + 4 otherwise. |
| AtcaCommand.PacketObject.AtRead | lib/atca_command.js:838-850 | atRead sets the Read opcode, txsize READ_COUNT and the response size that param1 bit 7 selects. It leaves param1, param2 and data as they were. |
| Frame.Payload | lib/ecc.js:866-867 | The payload is txsize, opcode and param1 (as bytes), param2 little-endian, then the data. |
| Frame.CrcLE | lib/ecc.js:868-869 | Two bytes from which the little-endian reading gives the CRC back. |
| Frame.Encode | lib/ecc.js:865-871 | The frame is 0x03, the payload, and the CRC of the payload alone, little-endian. It is |data| + 8 bytes long. lib/commands/exec.js:75-80 builds the identical frame. |
| Frame.EncodeSize | lib/ecc.js:1050-1051 | With txsize = 7 + |data| the frame is exactly txsize + 1 bytes. |
| Frame.FrameLength | lib/ecc.js:901 | The response is cut to its count byte, but never past the bytes received. |
| Frame.Validate | lib/ecc.js:899-905 | 'invalid count' exactly when the count byte is below 4. Success exactly when the CRC of the frame up to its last two bytes equals those bytes read little-endian. The result is then frame[1..count-2], count - 3 bytes. lib/commands/exec.js:100-105 validates the same way. |
| Frame.Encapsulate | lib/ecc.js:899-905 | The response packet of a body: count byte, body, CRC, |body| + 3 bytes whose count byte is its own length. |
| Frame.ValidateEncapsulate | lib/ecc.js:899-905 | Validating a packet made from a body gives the body back, whatever bytes follow it in the receive buffer. |
| Frame.ValidatedIsEncapsulated | lib/ecc.js:899-905 | Conversely, a response that passes validation is exactly the packet of the body returned. |
| Frame.EncodeIsEncapsulated | lib/ecc.js:865-871 | After the word address, a command frame with txsize = 7 + |data| is the packet of its payload. Commands and responses share one framing. |
| Frame.WakeSentinelIsResponse | lib/commands/exec.js:50 | The wake answer 04 11 33 43 is the valid response packet of the single status byte 0x11. |
| Builders.With32Flag | lib/ecc.js:918 | zone \| 0x80: bit 7 set, the low seven bits unchanged. |
| Builders.AtcabReadZone | lib/ecc.js:910-935 | BAD_PARAM exactly when the length is not 4 or 32, or the zone is invalid. Otherwise: Read opcode, no data, txsize 7, param1 the zone (with 0x80 for 32 bytes), param2 the zone address, and rxsize from param1 bit 7. |
| Builders.ReadZoneResponseSize | lib/ecc.js:929 | For a zone without the 0x80 flag, the expected response holds exactly the requested length plus 3. |
| Builders.AtReadAgreesWithReadZone | lib/atca_command.js:838-846 | The packet atcabReadZoneAsync builds inline has the opcode, txsize and rxsize that atRead would set. |
| Builders.ReadZonePacket | src/commands/commands.js:79-86 | readZoneAsync's packet: txsize 7, Read opcode, bit 7 of param1 set iff the length is 32 or the zone had it, and the getAddr address as param2. |
| Builders.ReadBuildersAgree | src/commands/commands.js:79-86 | For lengths 4 and 32 the two read builders succeed together and send identical frames. |
| Builders.AtcabWrite | lib/ecc.js:1033-1061 | Write opcode, the zone and address as parameters, txsize 7 + the payload length. The payload is data[0..32] plus mac[0..32] when zone bit 7 is set (mac when given), else data[0..4]. |
| Builders.AtcabWriteZone | lib/ecc.js:1065-1079 | BAD_PARAM exactly for a length other than 4 or 32, or an invalid zone. Otherwise a Write of the data to the zone address, with 0x80 in param1 for 32 bytes. |
| Builders.AtWriteAsWritten | lib/commands/write.js:8-18 | atWriteAsync as written, except that the undeclared `ATCA_WRITE` (line 11) is given the Write opcode 0x12: the payload as in lib/ecc.js, but txsize = 7 + |data| whatever the payload. |
| Builders.AtWriteMacCountMismatch | lib/commands/write.js:10 | With a 32-byte data and a 32-byte mac, txsize is 39 while the frame carries 64 data bytes, so the count byte disagrees with the frame length. |
| Builders.AtWrite | lib/commands/write.js:8-18 | atWriteAsync with the count taken from the payload: the frame is txsize + 1 bytes, and the packet equals lib/ecc.js's atcabWriteAsync. |
| Builders.AtWriteFixAgreesWithoutMac | lib/commands/write.js:20-25 | For the calls writeZoneAsync makes (4 bytes, or 32 with the flag, no mac), the corrected and the as-written packets are identical. |
| Builders.WriteZone | lib/commands/write.js:20-25 | writeZoneAsync: 'bad param' exactly for a bad length, 'bad zone' for a bad zone. Otherwise the same Write as lib/ecc.js. |
| Builders.WriteZoneCopiesAgree | lib/commands/write.js:20-25 | writeZoneAsync and atcabWriteZoneAsync succeed together and send identical frames. |
| Builders.Lock | lib/ecc.js:1184-1195 | A Lock packet: txsize 7, no data, the mode in param1, the summary CRC in param2, the 4-byte response size. |
| Builders.LockConfigZone | lib/ecc.js:1197-1199 | Lock mode 0x80 (Config, CRC ignored), summary 0. |
| Builders.LockConfigZoneCrc | lib/ecc.js:1201-1203 | Lock mode 0x00 with the given summary CRC. |
| Builders.LockDataZone | lib/ecc.js:1205-1207 | Lock mode 0x81 (Data, CRC ignored), summary 0. |
| Builders.LockDataZoneCrc | lib/ecc.js:1209-1211 | Lock mode 0x01 with the given summary CRC. |
| Builders.LockDataSlot | lib/ecc.js:1213-1215 | Lock mode (slot << 2) \| 2, summary 0. The slot can be read back from the mode. |
| Builders.LockModesDistinct | lib/atca_command.js:505-508 | The three lock builders select the Config, the Data and the slot modes. Only the zone locks set the no-CRC bit. |
| Builders.GenKeyBase | lib/ecc.js:1226-1264 | 'invalid data' exactly when other data is given and is not 3 bytes. Otherwise GenKey with the mode and key id, the data (or none), and txsize 10 exactly when mode bit 4 is set. |
| Builders.GenKeyCountMatchesFrame | lib/ecc.js:1251-1259 | txsize equals 7 + the data length exactly when data is given iff mode bit 4 is set. |
| Builders.GenKey | lib/ecc.js:1267-1269 | GenKey in private-key mode (0x04) for the slot, with no data and a consistent count. |
| Builders.GenPubKey | lib/ecc.js:1271-1273 | GenKey in public-key mode (0x00) for the slot, with no data and a consistent count. |
| I2c.Fit | lib/commands/exec.js:28 | The buffer a read fills: exactly the requested length, holding the received prefix. |
| I2c.ReadResult | lib/commands/exec.js:27-33 | A read succeeds exactly when the device sent data, with a buffer of the requested length. It fails with ENXIO exactly on a NACK. |
| I2c.WriteResult | lib/commands/exec.js:35-39 | A write succeeds exactly when the device acknowledged it, and fails with ENXIO exactly on a NACK. |
| I2c.Bus.ReadDevice | lib/commands/exec.js:27-33 | Takes the next read outcome, logs the read and leaves the write script alone. |
| I2c.Bus.Write | lib/commands/exec.js:35-39 | Takes the next write outcome, logs the write and leaves the read script alone. |
| I2c.Bus.Delay | lib/commands/exec.js:47 | The clock moves forward by at least the delay; the wait is logged. |
| Polling.PollOutcomeOf | lib/ecc.js:880-893 | The poll result: no final read means every attempt was NACKed; a final read gives the 130-byte buffer or its error. |
| Polling.Poll | lib/commands/exec.js:85-97 | At most floor(2500 / 5) + 1 = 501 reads of 130 bytes, each NACK followed by 5 ms. The loop stops on data or on the first non-ENXIO error, and on data at the first attempt it makes exactly one read. |
| Polling.Settle | lib/ecc.js:897-905 | Success exactly when a buffer arrived and validates, with the validated body. An exhausted poll gives NoResponse (rsp is undefined) and a read error is passed on. |
| Polling.CommandResult | lib/commands/exec.js:82-105 | Success exactly when the frame write, the awaited idle and the final read succeeded and the response validates; the result is then the body. An exhausted poll gives NoResponse. |
| Polling.NackRoundsFacts | lib/commands/exec.js:86-97 | k NACK rounds hold k reads of 130 bytes and no write, and every read in them is a NACK. |
| Polling.CommandEventsFacts | lib/commands/exec.js:82-98 | Once the frame is written, the device gets the frame once and the idle token exactly once, whatever the poll did. The reads are the poll's reads. |
| Polling.CommandEventsWritesOnly | lib/commands/exec.js:82-98 | A command writes nothing but its frame and the idle token. |
| Polling.CommandReturnsBody | lib/commands/exec.js:100-105 | A well-formed response packet read in full is returned as its body, whatever fills the rest of the buffer. |
| Polling.Transact | lib/commands/exec.js:82-105 | Writes the frame, then waits 2 ms, polls and writes the idle token. The log is exactly that sequence. At most 501 polls are made; the result is CommandResult of what happened, with the idle outcome counted only where the executor awaits it. |
| Polling.SentinelRead | lib/commands/exec.js:49-50 | A device answering the sentinel fills the 4-byte buffer with exactly the sentinel. |
| CommandsExec.Idle | lib/commands/exec.js:62-64 | Writes exactly [0x02] to the device; a failed write rejects. |
| CommandsExec.Sleep | lib/commands/exec.js:66-68 | Writes exactly [0x01] to the device; a failed write rejects. |
| CommandsExec.Attempt | lib/commands/exec.js:47-49 | One wake attempt: 3 ms, then a 4-byte read whose result is returned. |
| CommandsExec.GiveUp | lib/commands/exec.js:51-55 | On a read error other than ENXIO the sleep token is written once and the error rejects (the sleep write's own error when that fails). |
| CommandsExec.Wake | lib/commands/exec.js:41-60 | [0x00] goes to address 0 and its outcome is ignored. Then at most 1001 reads of 4 bytes follow. Success comes at the first read equal to 04 11 33 43; ENXIO and other data retry. Another error writes sleep and rejects, and exhausting the attempts gives 'wake timeout'. |
| CommandsExec.Payload | lib/commands/exec.js:72 | Missing data is sent as no bytes. |
| CommandsExec.Exec | lib/commands/exec.js:70-106 | Wakes the device, then sends the frame of the packet, polls and idles. The result is exactly CommandResult with the awaited idle. A device that answers the sentinel and then data, with every write acknowledged, wakes and gets exactly one poll read. |
| CommandsExec.ExecReturnsResponse | lib/commands/exec.js:70-106 | A device that wakes at once and answers a valid response packet makes execAsync return exactly the packet's body. |
| EccExec.Idle | lib/ecc.js:846-848 | Writes exactly [0x02] to the device and ignores the outcome. |
| EccExec.Sleep | lib/ecc.js:851-853 | Writes exactly [0x01] to the device and ignores the outcome. |
| EccExec.Try | lib/ecc.js:829-839 | One 4-byte wake read followed by the 1 ms delay of the finally clause. |
| EccExec.Wake | lib/ecc.js:824-843 | The dummy write, 3 ms, then at most 20 reads, each followed by 1 ms. The sentinel succeeds, other data retries, and any read error, a NACK included, rejects. 20 reads without the sentinel give 'failed'. |
| EccExec.Execute | lib/ecc.js:860-906 | Wakes, then sends the frame, polls and idles as lib/commands/exec.js does. The idle token's outcome never decides the result. |
| EccExec.ExecuteReturnsResponse | lib/ecc.js:860-906 | A device that wakes at once and answers a valid packet makes atcaExecuteCommandAsync return exactly its body. |
| SrcExec.Wake | src/commands/exec.js:45-55 | The token, 4 ms and one 4-byte read. Success iff the bytes are 04 11 33 43; other data gives 'bad response in wake' and a read error is passed on. |
| SrcExec.Idle | src/commands/exec.js:60-69 | Writes [0x02]. Success iff that write succeeds and the following read is NACKed. A read with data gives 'idle failed', and other read errors or a failed write reject with that error. |
| SrcExec.Sleep | src/commands/exec.js:74-83 | Writes [0x01] and ignores every error, so it never rejects. |
| SrcExec.SleepThenWake | src/commands/exec.js:99-107 | One round: sleep token (errors ignored), 4 ms, then a wake. It succeeds iff the wake read gives the sentinel, and takes at least 8 ms. |
| SrcExec.SleepWake | src/commands/exec.js:96-116 | Rounds repeat until a wake succeeds; at most 2000 / 8 + 1 rounds run. It succeeds only on a sentinel read and fails with ETIMEOUT only when more than 2000 ms have passed since the start. A device that answers the first round wakes in one round. |
| SrcExec.SleepWakeTwiceThenIdle | test/exec.js:44-48 | On a responsive device, sleep-wake twice followed by idle all succeed. |
| SrcExec.SleepWakeThenSleep | test/exec.js:29-32 | On a responsive device, sleep-wake succeeds in one round and a following sleep does not reject. |
| ByteRange.ReadBytesZone | lib/ecc.js:961-1020 | BAD_PARAM exactly for a bad zone, a Data slot past 15, or a non-empty range past the zone end; an empty range gives no bytes. Otherwise the result is exactly zone[offset..offset+length]. The Reads issued read 32 bytes while a whole block fits before the zone end and 4 bytes after, each in bounds and each starting where the previous ended. |
| ByteRange.ReadRange | lib/ecc.js:983-1016 | The read loop copies exactly zone[offset..offset+length]. The chunks form a plan whose first chunk holds offset and whose last holds the final byte. |
| ByteRange.PlannedForall | lib/ecc.js:985-1016 | In a read plan every chunk is in bounds, a block read starts at word 0, and consecutive chunks are contiguous and ascending. |
| ByteRange.CopyWindow | lib/ecc.js:995-1006 | read_buf_idx skips the bytes before offset in the first chunk, and copy_length never runs past the chunk or the range. Only the last copy stops short of its chunk's end. |
| ByteRange.WordIn | lib/ecc.js:989 | The (floored) word of a block that holds a byte; the first byte of a block is word 0. |
| ByteRange.WriteRange | lib/ecc.js:1105-1127 | The write walk: every write follows the block/word rules. The bytes written plus those of the skipped lock word make up exactly the length. |
| ByteRange.WritePlannedForall | lib/ecc.js:1112-1126 | In a write plan the writes are in strictly ascending, non-overlapping order. A 32-byte write starts at word 0, lies in the range and is never in Config block 2, and no write touches Config bytes 84-87. |
| ByteRange.ToCallsAt | lib/ecc.js:1113-1118 | Each Write issued carries exactly the data bytes for the place it writes. |
| ByteRange.PlanWrites | lib/ecc.js:1108-1127 | A checked range goes out as ascending, non-overlapping Writes, each with its own slice of the data. Together they cover the range except the lock word. |
| ByteRange.WriteBytesZone | lib/ecc.js:1081-1128 | BAD_PARAM exactly for a bad zone, a Data slot past 15, or a non-empty range that is unaligned or past the zone end; an empty range writes nothing. Otherwise the range goes out as in PlanWrites. writeBytesZoneAsync (lib/commands/write.js:27-61) has the same checks and the same walk once its undeclared zone constants (lines 30, 43 and 49) are given their values 2 and 0; as written it throws at line 30. |
| ByteRange.WriteConfigZone | lib/ecc.js:1143-1160 | BAD_PARAM exactly when the image is longer than 16 bytes and either its part from byte 16 is not whole words or the image is longer than the 128-byte zone. Image bytes from 16 on go to the same Config bytes in ascending, non-overlapping Writes. Bytes 0-15 and the lock word 84-87 are never written, and the written bytes plus the skipped lock word account for every byte from 16 on. An image of at most 16 bytes writes nothing. |
| Der.ByteCount | lib/der.js:19-22 | The fewest bytes that hold n. |
| Der.ByteCountUnique | lib/der.js:19-22 | The fewest bytes is unique: any k with 256^(k-1) <= n < 256^k is ByteCount(n). |
| Der.LengthOctets | lib/der.js:13-34 | Below 0x80 the single byte n. Otherwise 0x80 + k followed by the k big-endian bytes of n, k from 1 to 4 and the first byte non-zero (ITU-T X.690 sections 8.1.3 and 10.1). |
| Der.LengthOctetsExamples | lib/der.js:13-34 | 127 gives 7F, 128 gives 81 80, 258 gives 82 01 02. |
| Der.HighestByte | lib/der.js:21-22 | The exponent loop stops at the index of the highest non-zero byte, below 4. |
| Der.EncodeLength | lib/der.js:13-34 | encodeLength's loops produce exactly the length octets. |
| Der.LengthRoundTrip | lib/der.js:47-68 | Decoding the length octets of any n below 2^32, whatever follows them, gives n and exactly those octets. |
| Der.DecodeLength | lib/der.js:47-68 | decodeLength's loop computes the decoded length. It fails where the octets run past the buffer. |
| Der.TrimmedFacts | lib/der.js:86-90 | Trimming drops only leading bytes: non-empty input stays non-empty, no redundant sign byte remains (00 before a clear bit 7, FF before a set one). |
| Der.TrimmedValue | lib/der.js:86-90 | Trimming keeps the two's-complement value. |
| Der.IntegerContentFacts | lib/der.js:85-101 | INTEGER content has no redundant sign byte. For unsigned input it starts below 0x80 and its signed value is the unsigned value of the input; for signed input the value is kept (ITU-T X.690 section 8.3.2). |
| Der.EncodeInteger | lib/der.js:82-114 | encodeInteger's trim loop produces tag 02, the length octets and the content. |
| Der.EncodeIntegerAsWrittenUnpadded | lib/der.js:82-102 | As written, an unsigned 32-byte value whose first byte is below 0x80 encodes as 02 86 00 00 00 00 00 00 followed by the value, not as the intended TLV. That encoding decodes to an INTEGER with no content. |
| Der.EncodeIntegerExamples | lib/der.js:85-101 | Unsigned 80 01 gains a 00 pad; 00 7F trims to 7F, FF 80 to 80; 00 80 stays. |
| Der.DecodeInteger | lib/der.js:126-138 | 'bad tag' exactly when there is no byte at the start or it is not 02. 'bad length' exactly when the tag is right and the length octets cannot be read from the buffer. |
| Der.IntegerRoundTrip | lib/der.js:126-138 | Decoding an encoded INTEGER, whatever follows it, gives its content and exactly its TLV bytes. |
| Der.IntegerTlv32 | lib/der.js:173-174 | Each 32-byte half of a signature encodes as 02, a one-byte length and at most 33 content bytes. |
| Der.IntegerTlvPadded | lib/der.js:173-174 | A half starting at 0x80 or above becomes 02 21 00 followed by the half. |
| Der.IntegerTlvUnpadded | lib/der.js:173-174 | A half starting from 0x01 to 0x7F becomes 02 20 followed by the half. |
| Der.SignatureBitString | lib/der.js:170-183 | The encoded signature is 11 to 75 bytes, so every length fits in one byte. |
| Der.SignatureOfFields | lib/der.js:177-181 | The header is 03, total - 2, 00, 30, total - 5, and the two INTEGERs decode back at offsets 5 and 5 + their first TLV. |
| Der.SignatureFields | lib/der.js:170-183 | From an encoded raw r \|\| s, decoding gives back INTEGERs whose values are r and s as unsigned numbers (section 2.2.3 of RFC 3279). |
| Der.WrapSignature | lib/der.js:177-182 | The in-place overwrite of the first five bytes gives the BIT STRING / SEQUENCE header over the two INTEGERs. |
| Der.EncodeEcdsaSignature | lib/der.js:170-183 | encodeEcdsaSignature, with the intended encodeInteger, produces the encoded signature of the 64-byte raw value. |
| Der.DecodeLengthAsWrittenMisreads | lib/der.js:55 | 82 01 02, the length octets of 258, decode as written to 768 while the intended decoder gives 258. |
| Der.ExpAsWritten | lib/der.js:21-22 | The exponent loop as written, with the shift count taken mod 32: it never stops above the exponent it starts from. |
| Der.ExpAsWrittenAt128 | lib/der.js:21-22 | As written, the loop stops at exp 4 for length 128, because 1 << 32 is 1 in JavaScript. |
| Der.DigitsAsWrittenAt128 | lib/der.js:27-29 | As written, the digit loop for length 128 and exp 4 fills 80 00 00 00 80. |
| Der.EncodeLengthAsWrittenAt128 | lib/der.js:13-34 | As written, 128 encodes in six octets, 85 80 00 00 00 80, where Der.LengthOctetsExamples gives the minimal 81 80. |
| Csr.LMatchesDer | lib/csr.js:10-15 | L gives the same length octets as the encoder of lib/der.js for every length below 2^32. |
| Csr.TlvReadBack | lib/csr.js:17-18 | A TLV starts with its tag. Its length octets decode to |v|, and v follows them. |
| Csr.UIntegerContent | lib/csr.js:25-27 | UInteger is INTEGER over buf, or over 00 + buf when buf starts at 0x80 or is empty. The content starts below 0x80 and its signed value is buf's unsigned value. |
| Csr.UIntegerMatchesDer | lib/csr.js:25-27 | For a non-empty buffer without a redundant leading byte, UInteger equals lib/der.js's unsigned encodeInteger. |
| Csr.SignatureMatchesDer | lib/csr.js:20-29 | lib/der.js's signature equals BitString(Sequence(r + s), 0) built with lib/csr.js. |
| Csr.Base128Facts | lib/csr.js:34-38 | base128(n) ends in a byte below 0x80, has 0x80 on all others, and has no leading 0x80. It is [00] exactly for 0. |
| Csr.Base128RoundTrip | lib/csr.js:34-38 | Parsing the subidentifier of n, whatever follows, gives n and then what follows. |
| Csr.Base128Examples | lib/csr.js:34-38 | 0 gives 00, 840 gives 86 48, 10045 gives CE 3D. |
| Csr.SubidentifiersRoundTrip | lib/csr.js:41 | The concatenated subidentifiers of a list of arcs parse back to the list. |
| Csr.OidAsWrittenSplitsFirstArcs | lib/csr.js:40-41 | As written, 1.2.840.10045.2.1 becomes 06 08 01 02 86 48 CE 3D 02 01, with the first two arcs as separate subidentifiers. |
| Csr.StandardOidRoundTrip | lib/csr.js:40-41 | The intended OID content (ITU-T X.690 section 8.19.4: first subidentifier 40X + Y) parses back. The first value splits into the first two arcs, and the rest are the remaining arcs. |
| Csr.StandardOidAtEcPublicKey | lib/csr.js:40-41 | 1.2.840.10045.2.1 encodes as 06 07 2A 86 48 CE 3D 02 01. |
| Cert.PartLengths | lib/cert.js:46-63 | The template's parts have the lengths their headers announce: TBS 165, its content 162, key info 91, signature algorithm 12, signature 74, template 254. |
| Cert.TemplateSize | lib/cert.js:135-136 | The definition's template is the template and its size is 254. |
| Cert.TemplateIsOneSequence | lib/cert.js:47 | The template is one SEQUENCE (30 81 FB) of the TBS, the signature algorithm and the signature. |
| Cert.TbsIsOneSequence | lib/cert.js:47 | The TBS is one SEQUENCE (30 81 A2) of 162 content bytes. |
| Cert.VersionIsZero | lib/cert.js:47 | The version is INTEGER 0. |
| Cert.SubjectNames | lib/cert.js:47-50 | The subject is the SEQUENCE of O = "Example Inc" and CN = "Example Device". |
| Cert.RdnLayout | lib/cert.js:47-50 | Each name is SET { SEQUENCE { OID 2.5.4.t, UTF8String } } with its lengths. |
| Cert.AttributeTypeOid | lib/cert.js:47-49 | 2.5.4.t encodes as 06 03 55 04 t. |
| Cert.SubjectPkInfoLayout | lib/cert.js:50-56 | The key info is SEQUENCE { SEQUENCE { id-ecPublicKey, prime256v1 }, BIT STRING 04 \|\| X \|\| Y }. |
| Cert.AlgOidIsEcPublicKey | lib/cert.js:50-51 | Bytes 62-70 are the standard encoding of 1.2.840.10045.2.1. |
| Cert.CurveOidIsPrime256v1 | lib/cert.js:51-52 | Bytes 71-80 are the standard encoding of 1.2.840.10045.3.1.7. |
| Cert.ExtensionRequestOid | lib/cert.js:56-57 | The attribute's OID is 1.2.840.113549.1.9.14, extensionRequest. |
| Cert.AttributesLayout | lib/cert.js:56-57 | The attributes are [0] { SEQUENCE { extensionRequest, SET { SEQUENCE {} } } }. |
| Cert.SigOidIsEcdsaWithSha256 | lib/cert.js:57-58 | The signature algorithm's OID is 1.2.840.10045.4.3.2. |
| Cert.SigAlgIsEcdsaWithSha256 | lib/cert.js:57-58 | The signature algorithm is the SEQUENCE of that OID alone. |
| Cert.SignatureIsEncoded | lib/cert.js:58-62 | r starts below 0x80 and s at 0x80 or above. The signature bytes are exactly what the intended lib/der.js encoder makes of r \|\| s (as written it mis-encodes r, see "## Findings"). |
| Cert.TbsAt | lib/cert.js:80-83 | Template bytes 3 to 168 are the TBS. |
| Cert.SubjectPkInfoAt | lib/cert.js:50-56 | TBS bytes 55 to 146 are the key info. |
| Cert.PublicKeyAt | lib/cert.js:52-56 | Bytes 81-84 are 03 42 00 04 and bytes 85-148 the public key. |
| Cert.SignatureAt | lib/cert.js:58-62 | Bytes 180-253 are the signature, with r at 187-218 and s at 222-253. |
| Cert.GoldenSignature | lib/cert.js:58-62 | Encoding template bytes 187-218 followed by 222-253 with the intended encoder reproduces template bytes 180-253 exactly. |
| Cert.CsrDefWellFormed | lib/cert.js:65-137 | The definition has 8 standard elements. They and the TBS lie within the template, which has the declared size. |
| Cert.CsrDefElements | lib/cert.js:65-137 | X.509, key-hash serial source, private-key slot 0, a 64-byte GenKey public key. The key at {85, 64} lies inside the TBS at {3, 165} and the signature at {180, 74} ends the template. Every other element is empty. |
| Cert.EffectiveOffset | lib/ecc.js:1279-1287 | The shift is 0 unless the definition stores a DER-sized serial number and the place lies after it. Then it is the serial size byte's change against the template. |
| Cert.CsrDefNeverMoves | lib/cert.js:70 | For the CSR definition nothing ever moves. |
| Cert.SpliceFacts | lib/ecc.js:1307 | The copy puts data at its place and leaves every other byte of the certificate unchanged. |
| Cert.SpliceSame | lib/ecc.js:1307 | Copying back the bytes already there changes nothing. |
| Cert.SpliceTwice | lib/ecc.js:1307 | A second copy to the same place replaces the first. |
| Cert.SetCertElementOutcomes | lib/ecc.js:1289-1309 | An empty element is a no-op. 'unexpected element size' exactly when the size differs (outside a dynamic serial). For a fixed layout, success exactly when the element fits the certificate. A success is exactly the splice of the data at the shifted offset. |
| Cert.SetCertElement | lib/ecc.js:1289-1309 | The in-place copy into the certificate array gives exactly the specified result. On an error the array is unchanged. |
| Cert.GetTbs | lib/ecc.js:1311-1319 | The only error is 'bad cert'. |
| Cert.GetTbsStatic | lib/ecc.js:1311-1319 | With no dynamic serial number, or one at or after the TBS's end, the TBS is the slice of tbs_cert_loc, or 'bad cert' when it overruns the certificate. |
| Cert.GetTbsDynamic | lib/ecc.js:1311-1319 | With a dynamic serial number inside the TBS, the TBS still starts at tbs_cert_loc.offset. Its length is count plus the change of the serial's size byte against the template, and it is empty if that is not positive. 'bad cert' exactly when the moved end lies past cert_size. |
| Cert.TemplateTbs | lib/cert.js:80-83 | The TBS of the golden template is its TBS SEQUENCE. |
| Cert.SetPublicKey | lib/cert.js:100-103 | Setting a 64-byte key writes it at bytes 85-148; any other size is rejected. |
| Cert.TbsWithKey | lib/cert.js:80-103 | After setting a key, the TBS still starts 30 81 A2 and holds the BIT STRING header and the new key at its offsets 78 and 82. |
| Chip.RevTypeIff | lib/ecc2.js:21-25 | Revision 00 00 60 01 or 00 00 60 02 is a 608; 00 00 50 00 is a 508; any other revision has no type. |
| Chip.SerialNumber | lib/ecc2.js:66 | The serial number is cfg[0..4] followed by cfg[8..13], 9 bytes. |
| Chip.HexRoundTrip | lib/ecc2.js:66 | The hex string of bytes converts back to the bytes. |
| Chip.KeyConfigFields | lib/ecc2.js:80-86 | The KeyConfig fields of a slot put back together give its word (below bit 12). No bit is lost or read twice. |
| Chip.SlotConfigFields | lib/ecc2.js:88-94 | The SlotConfig fields of a slot put back together give its whole word. |
| Chip.SlotBytes | lib/ecc2.js:76-95 | Each field read from the configuration bytes 96 + 2i and 20 + 2i (and the bytes after them). keyValid is asked for exactly when KeyType is 4 and the key is private or PubInfo is set. |
| Chip.PubInfoAsWrittenClearForEcc | lib/ecc2.js:81-82 | As written, pubInfo reads bit 2, which is KeyType's low bit, so it is always clear for an ECC key. Only private ECC keys are validated. |
| Chip.PublicEccKeySkipped | lib/ecc2.js:96-103 | KeyConfig 0x0012, a public ECC key with PubInfo set, needs a key check but is skipped as written. |
| Chip.QueriedIff | lib/ecc2.js:96-104 | The slots queried for keyValid are exactly those with KeyType 4 that are private or have PubInfo, in ascending order. |
| Chip.StatusFacts | lib/ecc2.js:63-111 | The 18-digit hex serial number decodes to cfg[0..4] + cfg[8..13]. i2cAddr is cfg[16]. dataLocked iff cfg[86] is not 0x55 and configLocked iff cfg[87] is not 0x55. There are 16 slots. Slot i is locked iff bit i of the word at 88 is clear, and its keyValid is the chip's answer where asked. |
| Chip.AsksKeyValid | lib/ecc2.js:96-104 | The branches ask for keyValid exactly when the key check is needed, and only for ECC keys. |
| Chip.DecodeSlots | lib/ecc2.js:75-108 | The slot loop builds the 16 decoded slots and queries exactly the slots QueriedIff describes, in order. |
| Chip.ChipStatus | lib/ecc2.js:63-111 | chipStatusAsync gives the status record of the configuration bytes and queries exactly the slots QueriedIff describes. |
| Chip.PresetOnLockedChip | lib/ecc2.js:135-137 | On a chip whose configuration is locked, preset only reads the configuration and succeeds. |
| Chip.PresetOkIff | lib/ecc2.js:137-169 | Preset succeeds exactly when the chip is locked already, or when all of these hold: the lock bytes read 00 00 55 55 FF FF 00 00, the head and tail read back as written, and the re-read configuration from byte 16 on is head + 00 00 00 00 FF FF 00 00 + tail. |
| Chip.PresetGuards | lib/ecc2.js:145-164 | Something is written exactly when the chip is unlocked with factory lock bytes. The zones are locked exactly when both read-backs match. The data zone is locked iff the configuration zone is, and then the whole sequence ran. |
| Chip.FullTraceListed | lib/ecc2.js:135-167 | The complete preset sequence: read config, read 84..92, write and re-read head, write and re-read tail, lock config, lock data, re-read config. |
| Chip.PresetWritesAvoidLockBytes | lib/ecc2.js:151-158 | What preset does is always a prefix of that sequence. Its writes are the head at 16 and the tail at 92, so it never writes bytes 0-15 or 84-91. |
| Chip.PresetOnFactoryChip | lib/ecc2.js:133-175 | A factory-fresh chip that reads back what was written runs the whole sequence and succeeds. |
| Chip.Commands.ReadConfigZone | lib/ecc2.js:135 | The configuration read takes the next answer and is logged. |
| Chip.Commands.ReadBytes | lib/ecc2.js:148 | A range read takes the next answer and is logged with its place. |
| Chip.Commands.WriteBytes | lib/ecc2.js:154 | A range write is logged with its place and data; no answer is used. |
| Chip.Commands.LockConfigZone | lib/ecc2.js:163 | The configuration lock is logged. |
| Chip.Commands.LockDataZone | lib/ecc2.js:164 | The data lock is logged. |
| Chip.Preset | lib/ecc2.js:133-175 | presetAsync returns PresetSpec's result. The commands it issues are PresetSpec's sequence, and it uses exactly one answer per read. |

## Left out

- Bus discovery, opening and closing, the raw ioctl and the callback wrappers carry no logic the model needs.
- The SHA-256 digest of the TBS and ECDSA signing are left out; the template's signature is checked only as DER bytes.
- Real time is not modelled. Promise.delay, setTimeout and Date become the bus clock, which moves by at least each delay; transfers take no time.
- Console and debug output are not modelled.
- lib/ecc.js's `readAsync` is the promisified `read` (lib/ecc.js:773, 793-796). It reads the requested number of bytes from the device at `this.addr >> 1`, and rejects with the bus error. EccExec's reads model it directly as bus reads. Only an unused class-method variant, at lib/ecc.js:798-807, is commented out.
- The idle and sleep writes of lib/ecc.js are started and never awaited. The model performs them in order and ignores their outcome.
- Single-byte status responses are not interpreted. The executors return the body as is, as the source does.
- lib/ecc2.js takes its command layer (`readConfigZoneAsync`, `readBytesZoneAsync`, `writeBytesZoneAsync`, the locks, `keyValidAsync`) from `./commands`. Its index file is not part of this model; of its functions, only `writeBytesZoneAsync` (lib/commands/write.js:27-61) is. In lib/ecc2.js the layer is the `Chip.Commands` oracle: reads return scripted answers, and writes and locks never fail.
- Chip.Preset: the oracle's write, which never fails, stands for lib/commands/write.js's `writeBytesZoneAsync`. As written, that function throws a ReferenceError at line 30 for every valid zone, so `presetAsync`'s first write (lib/ecc2.js:154) would reject on a factory chip. The model follows the intended write.
- Chip.ChipStatus: the configuration is taken to be 128 bytes long, and keyValid is the chip's scripted answer per slot.
- Chip.Preset: takes the default image `abel` as a 128-byte parameter. lib/config.js is not part of this model.
- ByteRange.ReadBytesZone: returns the addressed bytes that the evident memcpy of lib/ecc.js:1008 copies. As written, lib/ecc.js:1019 returns all the chunks read, and lib/ecc.js:983 and 989 do not floor their divisions.
- ByteRange.ReadBytesZone: the device's zone is a byte sequence. Read errors from the device are not modelled on this path.
- ByteRange.WriteBytesZone: returns the list of Write commands issued. Their execution and errors go through the executors modelled separately.
- Der.EncodeInteger: models the intended trimming, with `trim` starting at 0. As written, `trim` starts undefined (lib/der.js:83) on every call that takes the trimming branch (lib/der.js:85). That is every signed call, and every unsigned call whose first byte is below 0x80. The length is then NaN and encodes as 86 00 00 00 00 00 00 (Der.EncodeIntegerAsWrittenUnpadded).
- Der.EncodeEcdsaSignature: uses the intended encodeInteger. Both its calls are unsigned (lib/der.js:173-174), so as written a half whose first byte is below 0x80 gets the seven NaN length octets. The template's r (26 …) is such a half.
- Der.DecodeInteger and Der.DecodeLength: where the length octets run past the buffer, the JavaScript computes with undefined and NaN. The model reports a failure there.
- Csr.L: models the intended length octets. As written, lib/csr.js:11-12 puts the buffer where its length belongs and reads the offset returned by writeUInt32BE.
- Csr.Oid: parsing of the dotted string is not modelled; the arcs are given as numbers.
- Cert.EffectiveOffset: models the intended function. As written, lib/ecc.js:1280 tests the undefined `cert_dev` and line 1283 assigns the undeclared `sn_offset` in strict code, so every call throws a ReferenceError.
- Cert.EffectiveOffset: requires the serial number's size byte to be readable in both the certificate and the template (SerialReadable). The JavaScript would read undefined there.
- Cert.GetTbs and Cert.SetCertElement: model the intended slice and splice. lib/ecc.js:1302 and 1304 do not parse, so the whole of lib/ecc.js fails to load. Line 1315 reads the undefined `effect_offset`, and line 1318 passes the wrong slice arguments.
- AtcaCommand.PacketObject.AtRead: as written, `atRead` ends by calling `atCalcCrc` (lib/atca_command.js:848). Its `atCRC` never terminates, so `atRead` never returns. The model leaves out the CRC step and returns the packet with opcode, txsize and rxsize set. `atRead` has no live caller (the call at lib/ecc.js:933 is commented out).
- atCRC and atCalcCrc (lib/atca_command.js:796-834) are left out. One never terminates, and the other writes param2 big-endian against every executor.
- decodeEcdsaSignature, atcacertCreateCsr and atcacertCreateCsrAsync are left out. decodeEcdsaSignature's body is empty. atcacertCreateCsr's declaration (lib/cert.js:139) is a syntax error that stops lib/cert.js from loading, and its body is empty. atcacertCreateCsrAsync uses undefined names.
- atcabUpdateExtraAsync is left out: its only callers are commented out.
- The opcode and mode constant tables beyond those the modelled commands use are left out.

## Findings

| source | as written | input that shows it | evidently intended | confidence | as-written member | corrected member |
|---|---|---|---|---|---|---|
| lib/der.js:22 | `1 << 8 * exp` is a 32-bit shift, so 1 << 32 is 1 and the loop stops at exp 4 | length 128 encodes as 85 80 00 00 00 80 | the minimal long form 81 80 (ITU-T X.690 section 10.1) | high; not executed | Der.EncodeLengthAsWrittenAt128 | Der.EncodeLength |
| lib/der.js:55 | every byte is weighted by 256^(numBytes-1) | 82 01 02 decodes to 768 | 258, the inverse of encodeLength | high; not executed | Der.DecodeLengthAsWrittenMisreads | Der.LengthRoundTrip |
| lib/csr.js:40-41 | every dotted arc is its own subidentifier | 1.2.840.10045.2.1 gives 06 08 01 02 86 48 CE 3D 02 01 | 06 07 2A 86 48 CE 3D 02 01 (first subidentifier 40X + Y, ITU-T X.690 section 8.19.4), as the template's own OIDs are encoded | high; not executed | Csr.OidAsWrittenSplitsFirstArcs | Csr.StandardOidRoundTrip |
| lib/ecc2.js:81 | pubInfo reads KeyConfig bit 2, the low bit of KeyType | KeyConfig 0x0012, a public ECC key with PubInfo, is never checked | PubInfo is KeyConfig bit 1, so public ECC keys with PubInfo are checked | high; not executed | Chip.PublicEccKeySkipped | Chip.QueriedIff |
| lib/der.js:83 | `trim` is declared without a value; on the trimming branch `data.length - trim` is NaN, the loop never runs, and the length is encodeLength(NaN) | an unsigned 32-byte half starting below 0x80, such as the template's r (26 …): 02 86 00 00 00 00 00 00 followed by r, which decodes with no content | trim starts at 0, as in atcacert_der_enc_integer, giving 02 20 followed by r | high; not executed | Der.EncodeIntegerAsWrittenUnpadded | Der.EncodeInteger |
| lib/commands/write.js:10 | txsize is 7 + data.length even when a mac is appended | zone 0x82, 32-byte data and 32-byte mac: txsize 39 for a 64-byte payload | 7 + the payload length, as lib/ecc.js:1051 has | medium; not executed | Builders.AtWriteMacCountMismatch | Builders.AtWrite |
