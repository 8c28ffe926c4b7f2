# Firmware-over-the-air stack of a RIOT fork, in Dafny

This project models the firmware-over-the-air (FOTA) pieces of a RIOT fork and
proves properties of them:

- **`FwRequests`** (`fw_requests.dfy`) — the firmware request protocol.
  - The fixed packet layout is `crc:u16 | cmd:u8 | len:u8 | payload union`.
  - The eight packet builders write into a `Packet` object.
  - `process_message` zeroes the received checksum, checks it and selects the callback for the tag.
  - `create_request` hands out session ids from a static counter.
  - There are first-match lookups over the request list and the artifact-to-file list.
- **`FirmwareServer`** (`server.dfy`) — the UDP chunk server.
  - The manifest loader keeps the first line that names an artifact.
  - A per-session state machine serves a summary and then 58-byte chunks.
  - The callback table routes received packets to the handlers.
  - The server's globals are the fields of a `Server` object.
  - Each handler is proved to perform one step of a pure function on a `Registry` value.
- **`Crc`** (`crc16.dfy`) — the bit-serial CRC-16 of the slot manager and the metadata generator. It is proved equal to CRC-16/XMODEM.
- **`Flash`** (`flashpage.dfy`) — the STM32F103RE internal flash: 256 pages of 2048 bytes with erase and program-and-verify.
- **`Fota`** (`fota.dfy`) — the internal-flash slot manager:
  - the 16-byte `OTA_metadata_t` record and its erased/valid rule;
  - slot addresses and pages, and metadata reads;
  - the newest/oldest/matching/empty slot scans;
  - the word-wise CRC of an image in flash;
  - slot verification, slot erase, the boot-jump address and marking the running image verified.
- **`GenerateMetadata`** (`generate_metadata.dfy`) — the host tool. It checksums a firmware file and writes the 256-byte metadata block that precedes the image in a slot.
- **`TftpClient`** (`tftp_client.dfy`) — the bootloader's TFTP writer. It packs received bytes into a page buffer and programs slot 1 page by page.
- **`CpuConf`** (`cpu_conf.dfy`) — the STM32F411RE firmware slot map and its two layouts (pages or erase sectors).
- **`UInt`** (`uint.dfy`) — fixed-width integers, their little-endian images and C strings.

Code that changes state in place is modelled with classes whose methods are
proved against pure specification functions:

- packets;
- the request allocator;
- the server globals;
- the flash device;
- the generator's globals;
- the TFTP writer's statics.

Scans and arithmetic are functions and lemmas.

Where the code and its documentation disagree, the model follows the code. Where
the code is evidently wrong, the model states the behaviour as written and also
has a corrected version (see Findings). The exceptions are four functions of
sys/fw_requests/fw_requests.c that would not compile as written:
`create_request`, `find_request_by_session`, `find_request_by_artifact` and
`find_by_artifact`. For these the model takes their evident intent (see Left out).

`crc16_ccitt_calc`, the packet checksum, is outside this code. Every member that
needs it takes it as a function parameter `ccitt`, so the protocol properties
hold whatever that routine computes.

## Model

| member | source | states |
|---|---|---|
| UInt.Le16RoundTrip | sys/include/fw_requests.h:105 | a u16 field stored low byte first reads back as the same value |
| UInt.Le32RoundTrip | sys/include/fota.h:26-27 | a u32 field stored little-endian reads back as the same value |
| UInt.Le32OfValue | sys/include/fota.h:26-27 | any four bytes are the little-endian image of the u32 they spell |
| UInt.CString | sys/fw_requests/fw_requests.c:130-131 | the string `strlen`/`strcpy` see is the NUL-free prefix of the buffer, ended by a NUL or by the buffer's end |
| UInt.CStringOfTerminated | sys/fw_requests/fw_requests.c:130-131 | a name copied with its terminating NUL is read back as exactly that name |
| Crc.Crc16 | sys/fota/fota.c:45-65 | the C loop (test the top bit, shift, take in the next bit of `val`, XOR 0x1021) computes eight single-bit register steps, most significant bit of `val` first |
| Crc.PolyValue | sys/fota/fota.c:47 | the polynomial register holds 0x1021 |
| Crc.ValueOfBitsOf | sys/fota/fota.c:45 | the bit model of the 16-bit register loses nothing: a value converted to bits and back is unchanged |
| Crc.BitsOfValueOf | sys/fota/fota.c:45 | every 16-bit register pattern is the bit image of exactly one u16 |
| Crc.FeedAppend | sys/fota/fota.c:113-121 | checksumming a concatenation is checksumming the first part, then the second from the register it left |
| Crc.FeedBytes | sys/fota/fota.c:117-119 | the four-turn word loop feeds the word's bytes in order |
| Crc.ImageCrcIsXmodem | sys/fota/fota.c:113-125 | the words followed by two zero bytes give the CRC-16/XMODEM of the data (poly 0x1021, init 0, no reflection, no final XOR), proved against a direct definition |
| Crc.FlushIsZeros | sys/fota/fota.c:124-125 | the two closing `crc16(crc, 0)` calls are sixteen zero-bit steps |
| Flash.Read | sys/fota/fota.c:29-35 | `int_flash_read` returns `count` bytes read upwards from the address, wrapping at 2^32 |
| Flash.ReadSplit | sys/fota/fota.c:29-35 | a read of n+k bytes is the read of n bytes followed by the read of k bytes after them |
| Flash.ReadInPage | sys/fota/fota.c:29-35 | a read inside one flash page returns exactly that slice of the page |
| Flash.Programmed | sys/fota/fota.c:539 | programming succeeds iff the page exists and is not bad; on success only that page changes, to the data |
| Flash.Device.Erase | sys/fota/fota.c:458 | `flashpage_write(page, NULL)` sets that page to 0xFF and logs the erase; nothing else changes |
| Flash.Device.WriteAndVerify | sys/fota/fota.c:539 | `flashpage_write_and_verify` yields the outcome and pages of Programmed and logs the operation |
| Fota.EncodeMetadata | sys/include/fota.h:16-29 | the in-memory record is `OTA_METADATA_LENGTH` = 16 bytes: five fields in 14 bytes plus tail padding |
| Fota.DecodeEncode | sys/include/fota.h:23-29 | reading back a stored record gives the record |
| Fota.EncodeDecode | sys/include/fota.h:23-29 | every 16 bytes are the image of exactly one record |
| Fota.ErasedRecord | sys/fota/fota.c:260-282 | the only record whose bytes are all 0xFF is the erased one; its two CRCs agree, yet it is not valid |
| Fota.ValidateOtaMetadata | sys/fota/fota.c:258-291 | returns 0 for an all-0xFF record, else 1 iff crc == crc_shadow; hence 1 iff the record is populated and valid |
| Fota.SlotLayout | sys/fota/fota.c:67-101 | slots 1 and 2 start on pages 8 and 128 at the matching addresses and end at their END addresses inside the device, do not overlap, and every other slot number maps to 0 |
| Fota.MetadataAddressInBuilds | sys/fota/fota.c:141-152 | in the bootloader `page * FLASHPAGE_SIZE + CPU_FLASH_BASE` is the slot start; in an OTA build it is offset by the running image's vector table and never the slot start |
| Fota.GetIntMetadata | sys/fota/fota.c:141-152 | the record read is the first 16 bytes of the page |
| Fota.GetIntOtaSlotMetadata | sys/fota/fota.c:163-187 | no record (-1) iff the slot is 0 or past MAX_OTA_SLOTS; otherwise the record stored at the start of the slot's first page |
| Fota.Snapshot | sys/fota/fota.c:298-302 | the scans see, for each slot 1..MAX_OTA_SLOTS in order, that slot's record |
| Fota.MatchingFrom | sys/fota/fota.c:293-328 | -1 iff no valid slot holds the version; otherwise the lowest-numbered valid slot holding it |
| Fota.FindMatchingIntOtaSlot | sys/fota/fota.c:293-328 | `find_matching_int_ota_slot` returns MatchingFrom over the slot records |
| Fota.NewestAfter | sys/fota/fota.c:399-432 | 0 iff no valid slot has a nonzero version; otherwise the first valid slot holding the strictly greatest version, which bounds every valid slot's version |
| Fota.FindNewestIntOtaImage | sys/fota/fota.c:399-432 | `find_newest_int_ota_image` returns NewestAfter over the slot records |
| Fota.OldestAfter | sys/fota/fota.c:359-397 | the result is a slot in 1..n; with no valid slot it is slot 1 with version 0; otherwise it is a valid slot holding the version returned |
| Fota.OldestIsFirstLeast | sys/fota/fota.c:381-390 | when every valid slot has a nonzero version, the oldest is the first valid slot holding the least version |
| Fota.OldestVersionZeroIsLast | sys/fota/fota.c:382-390 | while the version held is 0 the next valid slot is taken whatever its version, so a version-0 result is the last valid slot |
| Fota.OldestSkipsVersionZero | sys/fota/fota.c:382-390 | with v0 in slot 1 and v5 in slot 2, slot 2 is reported as the oldest |
| Fota.FindOldestIntOtaImage | sys/fota/fota.c:359-397 | `find_oldest_int_ota_image` returns OldestAfter over the slot records |
| Fota.EmptyFrom | sys/fota/fota.c:330-357 | the first invalid slot if there is one, else the oldest slot; always in 1..MAX_OTA_SLOTS, never 0 |
| Fota.FindEmptyIntOtaSlot | sys/fota/fota.c:330-357 | `find_empty_int_ota_slot` returns EmptyFrom over the slot records |
| Fota.LoopEnd | sys/fota/fota.c:113-121 | a word loop that stops without wrapping has read exactly the whole words below the end address |
| Fota.VerifyOtaCrcNeverEnds | sys/fota/fota.c:113-121 | for an end address in the last word of the address space the 32-bit address wraps and stays below it, so the loop never ends |
| Fota.FeedWords | sys/fota/fota.c:110-121 | the word loop feeds `4*ceil((end-begin)/4)` bytes from `begin`, or reports the never-ending case |
| Fota.FeedWord | sys/fota/fota.c:114-120 | one turn of the loop feeds the four bytes at the current address |
| Fota.FeedNextWord | sys/fota/fota.c:114-120 | feeding the bytes up to n+4 is feeding those up to n, then the next word |
| Fota.VerifyOtaCrc | sys/fota/fota.c:103-130 | `verify_ota_crc` returns the image CRC (whole words, then two zero bytes) of the bytes read, or none where it never returns |
| Fota.SlotImageAligned | sys/include/fota.h:9-20 | a slot's image starts OTA_METADATA_SPACE past the slot start, 256-byte aligned as the vector table must be |
| Fota.ComputeSlotCrc | sys/fota/fota.c:241-244 | the CRC over `[slot + 0x100, slot + 0x100 + size)`, with the end computed in 32 bits |
| Fota.SlotCrcIsOtaCrc | sys/fota/fota.c:241-244 | the slot CRC is `verify_ota_crc` over the image start and start + size (mod 2^32) |
| Fota.SlotCrcOfFittingImage | sys/fota/fota.c:241-244 | for an image that fits its slot the CRC covers its size rounded up to whole words and always terminates |
| Fota.SlotEndNoWrap | sys/fota/fota.c:242 | for an image that fits its slot the end address does not wrap |
| Fota.SlotWordBytes | sys/fota/fota.c:242-244 | the bytes read for such an image are its size rounded up to a multiple of 4 |
| Fota.VerifyIntOtaSlot | sys/fota/fota.c:215-256 | as written: -1 for slot 0 or past MAX_OTA_SLOTS, otherwise the CRC is computed and 0 is returned, and nothing is written |
| Fota.VerifyIntOtaSlotIgnoresOutcome | sys/fota/fota.c:246-255 | a slot whose image does not match its CRC is reported as 0, the documented success, and an invalid slot stays invalid |
| Fota.WithShadow | sys/fota/fota.c:247 | replacing crc_shadow changes only the record's bytes, never the rest of the page |
| Fota.MarkOutcome | sys/include/fota.h:126-135 | the documented `verify_int_ota_slot` has two results, 0 or -1, and leaves the flash well formed |
| Fota.VerifyAndMarkIntOtaSlot | sys/include/fota.h:126-135 | the method yields MarkOutcome's result and pages on the device |
| Fota.MarkOutcomeValidates | sys/include/fota.h:126-135 | the result is 0 iff the slot exists, its image fits and matches its CRC, and the page programs; the slot is then valid with crc_shadow = crc; no other page changes |
| Fota.ShadowWritten | sys/fota/fota.c:247 | writing crc_shadow := crc into the slot's first page makes its record that record with matching CRCs, hence valid |
| Fota.ErasedIfIn | sys/fota/fota.c:456-459 | erasing keeps the page size |
| Fota.ErasedRange | sys/fota/fota.c:456-459 | the erased range keeps the flash well formed and its page count |
| Fota.EraseOps | sys/fota/fota.c:456-459 | one erase per page of the range |
| Fota.EraseIntOtaImage | sys/fota/fota.c:434-464 | -1 and no flash operation for an invalid slot; otherwise exactly the slot's OTA_SLOT_PAGES pages are erased, in ascending order, and no other page changes |
| Fota.ErasedSlotReadsEmpty | sys/fota/fota.c:434-464 | after the erase the slot's record is the erased one (not valid) and the other slot's record is untouched |
| Fota.JumpIntoSlot | sys/fota/fota.c:487-504 | the reset vector is loaded from slot + OTA_METADATA_SPACE + OTA_RESET_VECTOR, on a 256-byte aligned vector table, and from OTA_RESET_VECTOR when the destination is 0 |
| Fota.PageFromRecord | sys/fota/fota.c:539 | the page programmed from the caller's record is FLASHPAGE_SIZE bytes |
| Fota.CurrentFirmwareOutcome | sys/fota/fota.c:520-545 | as written: crc_shadow := the running image's CRC, then the record followed by RAM is programmed to the current slot's first page; the flash stays well formed |
| Fota.VerifyCurrentFirmware | sys/fota/fota.c:520-545 | the method yields CurrentFirmwareOutcome's result, record and pages |
| Fota.VerifyCurrentFirmwareOverwritesImage | sys/fota/fota.c:539 | the programmed page's bytes past the metadata gap are RAM contents, so the image start is destroyed unless RAM happens to hold it |
| Fota.CurrentFirmwareReplacesImage | sys/fota/fota.c:536-544 | after a successful call the slot's image start holds RAM contents |
| Fota.PageWithRecord | sys/fota/fota.c:536-539 | writing only the record keeps every byte of the page past it |
| Fota.CurrentFirmwareFixedOutcome | sys/include/fota.h:246-253 | with only the record written, the flash stays well formed |
| Fota.VerifyCurrentFirmwareFixed | sys/include/fota.h:246-253 | the method yields CurrentFirmwareFixedOutcome's result, record and pages |
| Fota.CurrentFirmwareFixedKeepsImage | sys/include/fota.h:246-253 | on success the slot holds the updated record, the image is untouched, and the slot is valid iff the image matches the record's CRC |
| FwRequests.Code | sys/include/fw_requests.h:61-65 | processing reports one of NONE = 0, WRONG_CRC = 1 or UNKNOWN_MESSAGE_TYPE = 2 |
| FwRequests.LenField | sys/fw_requests/fw_requests.c:126-203 | each builder's `len` is exactly the number of payload bytes it writes, at most the union size |
| FwRequests.WireShape | sys/fw_requests/fw_requests.c:31-34 | the bytes sent are `total_len` = 4 + len, at most the packet size; cmd and len are at offsets 2 and 3, and the payload follows the header |
| FwRequests.SealedImage | sys/fw_requests/fw_requests.c:128-132 | the first `total_len` bytes of a packet holding a message are the checksum bytes followed by the header and payload |
| FwRequests.Packet.Image | sys/include/fw_requests.h:104-139 | the packet's memory image is `sizeof(struct firmware_packet)` bytes |
| FwRequests.Packet.Store | sys/fw_requests/fw_requests.c:131 | a copy into the union replaces its first bytes and keeps the rest |
| FwRequests.Packet.Seal | sys/fw_requests/fw_requests.c:132 | the stored checksum is taken over `total_len` bytes with the crc field 0; the packet then holds the message |
| FwRequests.Packet.BuildGetArtifact | sys/fw_requests/fw_requests.c:126-133 | the packet holds GET_ARTIFACT with the name and its NUL, sealed, and the union past them is unchanged |
| FwRequests.Packet.BuildGetChunk | sys/fw_requests/fw_requests.c:135-144 | the packet holds GET_CHUNK with session and chunk ids, sealed |
| FwRequests.Packet.BuildSummary | sys/fw_requests/fw_requests.c:146-155 | the packet holds RESPONSE_SUMMARY with session id and chunk count, sealed |
| FwRequests.Packet.BuildChunk | sys/fw_requests/fw_requests.c:157-166 | the packet holds RESPONSE_CHUNK with the chunk id and the data, len = 2 + data length, sealed |
| FwRequests.Packet.BuildAck | sys/fw_requests/fw_requests.c:168-174 | the packet holds an empty RESPONSE_ACK_LOOKING_FOR_PACKET, sealed |
| FwRequests.Packet.BuildRepoAddr | sys/fw_requests/fw_requests.c:176-183 | the packet holds RESPONSE_REPO_ADDR with the name, sealed |
| FwRequests.Packet.BuildReqRepoAddr | sys/fw_requests/fw_requests.c:185-194 | the packet holds GET_REPO_ADDR with the 16-byte address and the name, sealed |
| FwRequests.Packet.BuildEndChunks | sys/fw_requests/fw_requests.c:196-203 | the packet holds an empty END_CHUNKS, sealed |
| FwRequests.Encode | sys/fw_requests/fw_requests.c:126-203 | building a message into a fresh packet and taking `total_len` bytes gives its wire bytes |
| FwRequests.ZeroCrc | sys/fw_requests/fw_requests.c:64 | the buffer after processing has its crc field zeroed and every other byte unchanged |
| FwRequests.Dispatch | sys/fw_requests/fw_requests.c:77-121 | a callback is selected iff the tag is one of END_CHUNKS..RESPONSE_REPO_ADDR, and it is the callback of that tag |
| FwRequests.Process | sys/fw_requests/fw_requests.c:54-124 | WRONG_CRC iff the checksum over msg_len bytes with crc zeroed differs; UNKNOWN_MESSAGE_TYPE iff it matches but the tag is unknown; NONE iff a callback is invoked |
| FwRequests.ProcessMessage | sys/fw_requests/fw_requests.c:54-124 | the method zeroes the crc field in place and returns Process's code and callback |
| FwRequests.RoundTrip | sys/fw_requests/fw_requests.c:77-115 | a built packet received with msg_len = total_len passes the check and invokes exactly its tag's callback with the encoded fields |
| FwRequests.DecodePayload | sys/fw_requests/fw_requests.c:77-115 | whatever the checksum, the callback's arguments are the fields the builder wrote (a chunk arrives with length len - 2) |
| FwRequests.DecodeName | sys/fw_requests/fw_requests.c:92-94 | a name written with its NUL is read back as that name |
| FwRequests.DecodeWords | sys/fw_requests/fw_requests.c:97-99 | two u16 fields written little-endian are read back as the same values |
| FwRequests.SessionIdsIncrease | sys/fw_requests/fw_requests.c:40-44 | session ids 1, 2, 3, ... increase strictly until the u16 counter wraps |
| FwRequests.SessionIdsDistinct | sys/fw_requests/fw_requests.c:40-44 | no id repeats within 65536 consecutive requests |
| FwRequests.RequestAllocator.CreateRequest | sys/fw_requests/fw_requests.c:36-52 | the k-th record gets session id SessionIdAt(k), the given state, source and artifact, and fd = current_packet = nr_packets = 0 |
| FwRequests.FirstIndex | sys/fw_requests/fw_requests.c:206-229 | the first position satisfying the predicate, or none iff no element does |
| FwRequests.FindRequestBySource | sys/fw_requests/fw_requests.c:206-229 | the first record matching both source and artifact; none iff no record matches both |
| FwRequests.FindRequestBySession | sys/fw_requests/fw_requests.c:231-251 | the first record with the session id; none iff there is none |
| FwRequests.FindRequestByArtifact | sys/fw_requests/fw_requests.c:253-273 | the first record for the artifact from any source; none iff there is none |
| FwRequests.FindByArtifact | sys/fw_requests/fw_requests.c:275-295 | the first map entry with the artifact name; none iff there is none |
| FirmwareServer.IndexOf | dist/tools/firmware_server/server.c:45-47 | `strstr` with a one-byte needle: the first position of that byte, none iff absent |
| FirmwareServer.ParseLine | dist/tools/firmware_server/server.c:45-49 | the line is cut at its first newline and then its first space; the name has no space or newline, and name, space, file and newline prefix the line |
| FirmwareServer.SplitLine | dist/tools/firmware_server/server.c:45-49 | the same cut on the C string itself |
| FirmwareServer.ParseLineRoundTrip | dist/tools/firmware_server/server.c:44-49 | a manifest line `<name> <file>\n` is read back as (name, file) |
| FirmwareServer.FirstNaming | dist/tools/firmware_server/server.c:51 | the first manifest line naming the artifact, none iff no line does |
| FirmwareServer.LoadFirstWins | dist/tools/firmware_server/server.c:44-58 | after loading, a name already present keeps its file and any other name maps to `firmwares/<file>` of the first line naming it |
| FirmwareServer.LoadKeepsNamesUnique | dist/tools/firmware_server/server.c:51-56 | loading never lists a name twice |
| FirmwareServer.NrPacketsIsCeiling | dist/tools/firmware_server/server.c:127-130 | for files of at most 65535 chunks the count is ceil(size / 58) |
| FirmwareServer.ChunkData | dist/tools/firmware_server/server.c:196-198 | a chunk's data is at most 58 bytes |
| FirmwareServer.ChunksArePrefix | dist/tools/firmware_server/server.c:196-198 | chunks 0..n-1 concatenated are the file's first min(58n, size) bytes |
| FirmwareServer.ChunksCoverFile | dist/tools/firmware_server/server.c:127-130 | the announced chunks concatenate to exactly the file, and none is empty |
| FirmwareServer.ServeChunk | dist/tools/firmware_server/server.c:181-189 | a chunk is served iff (SENDING_CHUNKS and current_packet <= id) or (SENDING_SUMMARY, current_packet = 0 and id = 0); the session then moves forward to SENDING_CHUNKS at that id |
| FirmwareServer.InOrder | dist/tools/firmware_server/server.c:181-184 | the ids 0, 1, ..., n-1 |
| FirmwareServer.InOrderDownload | dist/tools/firmware_server/server.c:181-198 | a client asking for chunks 0..n-1 in order after the summary has every request admitted and receives the file's first n chunks |
| FirmwareServer.NoRewind | dist/tools/firmware_server/server.c:181-184 | a request behind the session's position, or in any other state, is refused |
| FirmwareServer.Admit | dist/tools/firmware_server/server.c:141-148 | the record served belongs to the requesting source and artifact |
| FirmwareServer.ServerCallbacksFixed | dist/tools/firmware_server/server.c:75-83 | with END_CHUNKS logged like the other client-role messages, every tag has an entry |
| FirmwareServer.EndChunksHitsMissingCallback | sys/fw_requests/fw_requests.c:113-115 | a well-formed END_CHUNKS passes processing and is routed to the server's missing entry, which stops the server; the fixed table leaves the server unchanged |
| FirmwareServer.HandleFollowsTable | dist/tools/firmware_server/server.c:85-117 | the log-only callbacks change no server state, in the table as written and in the fixed one |
| FirmwareServer.HandleKeepsConsistent | dist/tools/firmware_server/server.c:133-234 | every handler, with either table, keeps session ids numbered, records unique per (source, artifact), names unique, and every running record reading an opened file |
| FirmwareServer.ArtifactRequestKeepsConsistent | dist/tools/firmware_server/server.c:133-175 | the GET_ARTIFACT handler keeps the server consistent |
| FirmwareServer.AdmitKeepsConsistent | dist/tools/firmware_server/server.c:141-148 | admission keeps records numbered and unique; only the admitted record may lack a file, and then it is due a summary |
| FirmwareServer.AnswerKeepsConsistent | dist/tools/firmware_server/server.c:150-169 | the summary step opens the prepared record's file, restoring consistency |
| FirmwareServer.ChunkRequestKeepsConsistent | dist/tools/firmware_server/server.c:176-212 | the GET_CHUNK handler keeps the server consistent |
| FirmwareServer.SharedSourceMergesClients | dist/tools/firmware_server/server.c:246-281 | with every datagram carrying main's never-assigned `ip` as its source, two clients asking for the same artifact get one record between them |
| FirmwareServer.DistinctSendersGetOwnRecords | dist/tools/firmware_server/server.c:141-148 | with each datagram carrying its real sender, two different clients asking for a listed artifact get two records |
| FirmwareServer.ArtifactRequestCreatesOnce | dist/tools/firmware_server/server.c:141-148 | a record is appended, with the next session id, iff none exists for (source, artifact) |
| FirmwareServer.SummaryWhenDue | dist/tools/firmware_server/server.c:150-169 | a summary is sent iff the record is in SENDING_SUMMARY or WAITING_FOR_LOCATION and the artifact is known; it carries the session and ceil(size/58) chunks, and otherwise nothing is sent and no record changes |
| FirmwareServer.AnswerSends | dist/tools/firmware_server/server.c:150-169 | the summary step for one record, with the same iff |
| FirmwareServer.UniqueLookup | dist/tools/firmware_server/server.c:141-142 | with unique pairs the lookup finds the one record holding the pair |
| FirmwareServer.SessionLookup | dist/tools/firmware_server/server.c:178-179 | with fewer than 65536 records every session id leads back to its own record |
| FirmwareServer.ChunkRequestIff | dist/tools/firmware_server/server.c:176-212 | a chunk is sent iff the session exists and the guard holds; then the record moves to that chunk in SENDING_CHUNKS and its bytes go to the record's source; a refusal changes nothing |
| FirmwareServer.RepoAddrReply | dist/tools/firmware_server/server.c:214-234 | one RESPONSE_REPO_ADDR naming fw_name goes to req_src, and the receiver decodes that name |
| FirmwareServer.Server.FillRepository | dist/tools/firmware_server/server.c:28-63 | with no manifest the server exits; otherwise the directory becomes Load of the parsed lines, or the server stops at a malformed line |
| FirmwareServer.Server.ReadLines | dist/tools/firmware_server/server.c:44-59 | the getline loop yields Load of the lines parsed, keeping names unique |
| FirmwareServer.Server.AddListing | dist/tools/firmware_server/server.c:51-58 | a name not yet present is appended with its path; names stay unique |
| FirmwareServer.Server.OnArtifactRequest | dist/tools/firmware_server/server.c:133-175 | performs ArtifactRequest on the globals and keeps them consistent |
| FirmwareServer.Server.SendSummaryIfDue | dist/tools/firmware_server/server.c:150-174 | performs the summary step Answer on the globals |
| FirmwareServer.Server.PrepareRequestWithArtifact | dist/tools/firmware_server/server.c:119-131 | opens the artifact's file as the next descriptor and sets current_packet = 0 and the chunk count |
| FirmwareServer.Server.CountPackets | dist/tools/firmware_server/server.c:127-130 | the chunk count computed with the u32 size, the u16 quotient and the wrapping `+ 1` is NrPackets(size); for a file of at most 65535 chunks it is ceil(size / 58), so the chunks cover the file and the last one is not empty |
| FirmwareServer.Server.OnChunkRequest | dist/tools/firmware_server/server.c:176-212 | performs ChunkRequest on the globals and keeps them consistent |
| FirmwareServer.Server.SendChunk | dist/tools/firmware_server/server.c:181-211 | updates the record and sends the chunk exactly as ServeChunk admits |
| FirmwareServer.Server.OnRepoAddrRequest | dist/tools/firmware_server/server.c:214-234 | performs RepoAddrRequest on the globals |
| FirmwareServer.Server.Deliver | dist/tools/firmware_server/server.c:271-282 | the datagram, cut to the 1000-byte buffer, lands at its start; the crc field is zeroed and process_message's code and callback are returned |
| FirmwareServer.Server.Receive | dist/tools/firmware_server/server.c:267-287 | as written: whoever sent it, the datagram is processed as sent from `ip`, and the table as written runs the selected callback, so END_CHUNKS stops the server |
| FirmwareServer.Server.ReceiveFixed | dist/tools/firmware_server/server.c:267-287 | corrected: the datagram is processed as sent from its sender, and the fixed table runs the selected callback |
| FirmwareServer.Server.Run | dist/tools/firmware_server/server.c:75-83 | the table as written performs Handle on the globals: the missing END_CHUNKS entry stops the server |
| FirmwareServer.Server.RunFixed | dist/tools/firmware_server/server.c:75-83 | the fixed table performs HandleFixed on the globals |
| FirmwareServer.ParseAllStopsAtCrash | dist/tools/firmware_server/server.c:44-49 | once a manifest line crashes the loop, the whole manifest does |
| GenerateMetadata.WholeWords | examples/OTA_example/generate-metadata.c:106-108 | fread hands over the largest multiple of 4 not above the file length |
| GenerateMetadata.WrappedSizeAligned | examples/OTA_example/generate-metadata.c:85 | the u32 `firmware_size` stays a multiple of 4 when it wraps |
| GenerateMetadata.RecordSize | examples/OTA_example/generate-metadata.c:171 | for a file under 4 GiB the size field is the checksummed length |
| GenerateMetadata.Generator.ReadWord | examples/OTA_example/generate-metadata.c:106 | fread returns one item and advances 4 bytes while a whole word remains; otherwise 0 items and the rest is consumed |
| GenerateMetadata.Generator.CrcCalcWord | examples/OTA_example/generate-metadata.c:76-88 | the word's bytes are fed to the register and `firmware_size` grows by 4 (mod 2^32) |
| GenerateMetadata.Generator.CrcCalcWords | examples/OTA_example/generate-metadata.c:106-108 | the loop feeds exactly the file's whole words and counts them |
| GenerateMetadata.Generator.CrcCalc | examples/OTA_example/generate-metadata.c:99-123 | the result is the image CRC of the file's whole words; a trailing partial word is neither checksummed nor counted |
| GenerateMetadata.Generator.Run | examples/OTA_example/generate-metadata.c:125-202 | fewer than four arguments give -1 and no output; otherwise 0 and the record followed by 240 bytes of 0xFF |
| GenerateMetadata.FillBlank | examples/OTA_example/generate-metadata.c:190-194 | the blank buffer is 240 bytes of 0xFF |
| GenerateMetadata.MetadataFileLayout | examples/OTA_example/generate-metadata.c:174-196 | the output is 256 bytes (OTA_METADATA_SPACE); its first 16 decode to the record with the checksummed size and CRC, crc_shadow per the verified flag, the UUID and version, and the rest is 0xFF |
| GenerateMetadata.RecordValidity | examples/OTA_example/generate-metadata.c:163-169 | a generated record is never the erased one; it is valid iff the image was declared verified or its CRC is 0 |
| GenerateMetadata.EmptyImageCrc | examples/OTA_example/generate-metadata.c:99-123 | the CRC of an empty image is 0 |
| GenerateMetadata.UnverifiedEmptyImageIsValid | examples/OTA_example/generate-metadata.c:165-169 | as written, an empty image declared unverified still produces a valid record |
| GenerateMetadata.RecordFixedValidity | examples/OTA_example/generate-metadata.c:165-169 | with crc_shadow = the complement of crc for unverified images, validity is exactly the verified flag |
| GenerateMetadata.TrailingBytesIgnored | examples/OTA_example/generate-metadata.c:106-112 | bytes past the last whole word do not change the output |
| GenerateMetadata.FlashedImageMatches | examples/OTA_example/generate-metadata.c:118-119 | a slot holding a generated record and its image passes the slot manager's CRC check |
| GenerateMetadata.FlashedImageIsMarked | examples/OTA_example/generate-metadata.c:162-187 | the documented slot verification accepts such a slot iff its first page programs, and the slot is then valid |
| TftpClient.Initial | examples/bootloader/tftp_client.c:32-35 | the writer starts with an empty buffer, page1 = 8 and page2 = 128, holding no bytes |
| TftpClient.Step | examples/bootloader/tftp_client.c:40-55 | one loop turn keeps buf_ptr <= FLASHPAGE_SIZE and never moves page2; a failed write leaves page1 and buf_ptr unchanged |
| TftpClient.Save | examples/bootloader/tftp_client.c:38-59 | the turns in order, stopping at the first failed write, keep the writer sound |
| TftpClient.LastPage | examples/bootloader/tftp_client.c:61-94 | the last-page write keeps the writer sound |
| TftpClient.Writer.SaveToSlot1 | examples/bootloader/tftp_client.c:38-59 | performs Save on the statics and the flash |
| TftpClient.Writer.ClearBuffer | examples/bootloader/tftp_client.c:71 | the buffer is zeroed |
| TftpClient.Writer.WriteLastPage | examples/bootloader/tftp_client.c:61-94 | performs LastPage on the statics and the flash |
| TftpClient.Writer.DataCb | examples/bootloader/tftp_client.c:136-144 | the block is saved and reported consumed in full, whatever the save did |
| TftpClient.Writer.StopCb | examples/bootloader/tftp_client.c:150-169 | on success the last page is written and slot_ready raised; other events change nothing |
| TftpClient.StoredByteExtends | examples/bootloader/tftp_client.c:41-43 | a byte stored while the buffer has room extends the written stream by that byte |
| TftpClient.FlushDropsByte | examples/bootloader/tftp_client.c:44-50 | the byte that finds the buffer full triggers the page write and is stored nowhere |
| TftpClient.FlushByteIgnored | examples/bootloader/tftp_client.c:44-50 | so a save's outcome does not depend on the byte that triggers a flush |
| TftpClient.FlatWithPage | examples/bootloader/tftp_client.c:46-49 | programming the next page appends its data to the pages written so far |
| TftpClient.FailedWriteStops | examples/bootloader/tftp_client.c:51-54 | a failed write ends the save at once, with page1 and buf_ptr unchanged |
| TftpClient.SaveKeepsPage2 | examples/bootloader/tftp_client.c:38-59 | the data path never moves page2 |
| TftpClient.SaveWithinPage | examples/bootloader/tftp_client.c:40-43 | a block that fits the buffer is only buffered, nothing is programmed |
| TftpClient.SmallImageNeverWritten | examples/bootloader/tftp_client.c:61-94 | as written, an image of at most one page is never programmed, yet the success callback raises slot_ready |
| TftpClient.StepFixed | examples/bootloader/tftp_client.c:40-55 | the corrected turn keeps the writer sound and never moves page2 |
| TftpClient.SaveFixed | examples/bootloader/tftp_client.c:38-59 | the corrected save keeps the writer sound |
| TftpClient.StepFixedExtends | examples/bootloader/tftp_client.c:44-50 | with the triggering byte stored as the new page's first, every successful turn adds its byte |
| TftpClient.SaveFixedKeepsStream | examples/bootloader/tftp_client.c:38-59 | a successful corrected save holds every byte of the block, in order |
| TftpClient.LastPageFixed | examples/bootloader/tftp_client.c:61-94 | the corrected last-page write keeps the writer sound |
| TftpClient.LastPageFixedWritesStream | examples/bootloader/tftp_client.c:61-77 | when the corrected last page programs, slot 1 from its start holds the whole stream |
| TftpClient.SmallImageWrittenFixed | examples/bootloader/tftp_client.c:61-77 | with the fix a one-page image reaches slot 1's first page |
| TftpClient.SaveFixedWithinPage | examples/bootloader/tftp_client.c:40-43 | a block that fits is only buffered by the corrected save too |
| CpuConf.GettersZeroIffNoSlot | cpu/stm32f4/include/cpu_conf.h:139-212 | each of get_slot_address, get_slot_page and get_slot_size is 0 exactly for slot numbers other than 1 and 2; real slots lie past the bootloader |
| CpuConf.SlotsAreAdjacent | cpu/stm32f4/include/cpu_conf.h:95-113 | slot 1 starts at FLASH_BASE + BOOTLOADER_SPACE and slot 2 exactly where slot 1 ends, in both layouts |
| CpuConf.SlotsFitTheDevice | cpu/stm32f4/include/cpu_conf.h:95-113 | with 2 KiB pages or sectors both slots lie inside the 512 KiB flash |
| CpuConf.SectorStart | cpu/stm32f4/include/cpu_conf.h:104-113 | the F411RE's erase sectors start at increasing offsets |
| CpuConf.SectorSlotsAlignWithSectors | cpu/stm32f4/include/cpu_conf.h:104-113 | in the sector layout slot 1 is sectors 1-4 and slot 2 is sector 5, both starting and ending on sector boundaries |
| CpuConf.PageNumbersMatchAddresses | cpu/stm32f4/include/cpu_conf.h:95-103 | slot 2's first page is slot 1's plus FW_SLOT_PAGES, and the page numbers match the slot addresses iff FLASHPAGE_SIZE is 2048 |
| CpuConf.VectorTableOffset | cpu/stm32f4/include/cpu_conf.h:224-228 | in a slot build CPU_FLASH_BASE is the slot address plus FW_METADATA_SPACE (0x200), not the 0x100 gap the slot manager jumps over; otherwise FLASH_BASE |

## Left out

- Logging (`printf`, `DEBUG`, `print_metadata`) is left out, and so is the inline assembly of `jump_to_image` (interrupts off, the PSP reset, the branch). Only the address arithmetic of `jump_to_image` is kept.
- The TODO stubs of sys/fota/fota.c (154-161, 189-213, 466-480) return 0 and carry no logic.
- `get_current_metadata` (sys/fota/fota.c:514-518) is `get_int_metadata` on the current slot's page. That read is GetIntMetadata / GetIntMetadataAsWritten.
- `crc16_ccitt_calc` is not part of this model. It is the function parameter `ccitt`.
- RIOT's `periph/flashpage` driver is not part of this model. `flashpage_write(page, NULL)` and `flashpage_write_and_verify` get the contract of their documentation. Failures are the fixed set `bad`, and a page that fails to program is left erased.
- A program of a page past the device is reported as a failure. In the driver it is an assertion.
- Sockets are not modelled: `socket`, `bind`, `recvfrom`, `sendto`, `inet_pton`/`ntop` and the forever loop of the server's `main`. Sent datagrams are appended to `outbox`, and one received datagram and its sender are the input of `Server.Receive`.
- FirmwareServer.Server.Receive: main's `ip` (dist/tools/firmware_server/server.c:246) is never assigned, yet it is the source process_message gets (line 281). C leaves its value indeterminate; the model takes it as one value `ip`, fixed when the server is constructed.
- The server's file I/O is modelled over values. `fopen`/`getline` become a sequence of lines. `open`/`stat`/`lseek`/`read` become a map from path to contents. A file that cannot be opened reads as empty. In the source the failure plays out as follows:
  - `open` returns -1;
  - `stat` fails and leaves `st_size` indeterminate (dist/tools/firmware_server/server.c:123-130);
  - a later chunk request's `read` returns -1;
  - `build_chunk_packet` is then called with length 65535, and its `memcpy` runs past the packet (server.c:196-202).

  The model does not follow that path.
- A source address is the 16-byte IPv6 address rather than its text rendering. The rendering is one to one.
- `exit()` and crashes through a NULL pointer stop the server. In the model this sets `halted`, and a halted server ignores later events. This covers a manifest line without a newline or a space, and an unknown artifact.
- FwRequests.RequestAllocator.CreateRequest models the evident intent of lines the compiler rejects (sys/fw_requests/fw_requests.c:42-47). It assigns to the arrays `source_address` and `local_filename`, calls `strcpy` with its arguments reversed, and writes `r->state` for `current_state`. The model's record holds the source, the artifact and `current_state`. It does not bound the artifact by the 32-byte `firmware_name` field.
- FwRequests.FindRequestBySession: `find_request_by_session` (sys/fw_requests/fw_requests.c:231-251) takes its list by value as a `clist_node_t` and applies `->` to it, which does not compile. Its prototype (sys/include/fw_requests.h:179) takes a pointer. The model takes the pointer signature of the header, which server.c calls.
- FwRequests.FindRequestByArtifact: `find_request_by_artifact` (sys/fw_requests/fw_requests.c:253-273) has the same by-value parameter, against the pointer of its prototype (sys/include/fw_requests.h:180). The model takes the pointer signature.
- FwRequests.FindByArtifact: `find_by_artifact` is defined with a `const clist_node_t *` (sys/fw_requests/fw_requests.c:275), which conflicts with its prototype's `clist_node_t *` (sys/include/fw_requests.h:153). The model takes the prototype. The two differ only in constness, and neither version changes the list.
- FirmwareServer.RepoAddrRequest: `build_repo_addr` copies the name with `strcpy`. The model stops the server for a name of 60 bytes or more, whose copy would run past the end of the packet. A name of 58 or 59 bytes runs past `artifact[58]` but stays inside the 60-byte payload union, and it is sent as built.
- `dispose_request` (sys/fw_requests/fw_requests.c:297-314) only frees memory.
- `build_routes_packet` is only declared (sys/include/fw_requests.h:173); no body exists.
- The `next` pointers of the circular lists are left out. Lists are sequences in insertion order.
- The metadata generator's `fopen` failures and `sscanf` parsing are left out. The parsed values (`verified`, `version`, `uuid`) are parameters of `Generator.Run`, and the number of arguments is `arguments`. The output file is returned as bytes.
- The generator runs on a little-endian host that aligns `uint32_t` to 4 bytes, so its record is the 16-byte `OTA_metadata_t`.
- The TFTP writer uses the 2048-byte, 256-page flash of the Flash module.
- The TFTP writer does not model `_tftp_client_start_cb` (logging), `tftp_client_init` (network setup) or `_tftp_default_host`.
- `slot_ready` is defined in the bootloader's main. It starts false in the model.
- TftpClient.Stream: a last page carries stale bytes past `buf_ptr` (a mid-stream flush does not clear `buf`). The stream covers only the bytes up to `buf_ptr`. LastPageFixedWritesStream says the bytes after it on that page are what was left in the buffer.
- `page1` is a `uint32_t`. Its wrap-around is not modelled, because the failed write at the device's last page stops it long before.
- CpuConf: the header compiles only with exactly one of `FLASH_SECTORS`/`FLASH_PAGES` defined. The model's `Layout` picks one, and its page layout takes FLASHPAGE_SIZE as a parameter.
- Fota.VerifyOtaCrc: where the source's loop never ends, the model returns None.
- Fota.VerifyIntOtaSlot returns None where the loop never ends. The only other source of divergence is a slot whose size reaches the last word of the address space.
- Fota.MetadataAddressInBuilds and Fota.CurrentFirmwareOutcome take the STM32F103RE constants, because the slot manager is built with those; CpuConf covers the STM32F411RE header separately.
- Fota.CurrentFirmwareOutcome: what lies in RAM after the caller's record is the parameter `ram`.

## Findings

| source | as written | input that shows it | evidently intended | confidence | as-written member | corrected member |
|---|---|---|---|---|---|---|
| dist/tools/firmware_server/server.c:75-83 | the server's callback table has no `on_end_chunks`, but `process_message` calls it for END_CHUNKS (sys/fw_requests/fw_requests.c:113-115) | any peer's well-formed END_CHUNKS packet | END_CHUNKS logged and ignored like the other client-role messages | high, not executed | FirmwareServer.EndChunksHitsMissingCallback | FirmwareServer.ServerCallbacksFixed |
| dist/tools/firmware_server/server.c:246-281 | the sender's address from `recvfrom` is only rendered into `address_name` and then overwritten; `process_message` gets the never-assigned local `ip`, so every datagram has the same source and records and replies are keyed to it | two clients asking for the same artifact | pass the sender's address from `cliaddr.sin6_addr` | high, not executed | FirmwareServer.SharedSourceMergesClients | FirmwareServer.DistinctSendersGetOwnRecords |
| examples/bootloader/tftp_client.c:44-50 | the byte that finds the buffer full triggers the page write and is then dropped | a stream of 2049 bytes: byte 2049 is lost | store the byte as the first of the next page | high, not executed | TftpClient.FlushDropsByte | TftpClient.SaveFixedKeepsStream |
| examples/bootloader/tftp_client.c:61-94 | `write_last_page` writes only when page1 or page2 has moved off its start page, so an image of at most one page is never programmed; `slot_ready` is raised anyway | a 100-byte image | program slot 1's first page when the buffer holds data | high, not executed | TftpClient.SmallImageNeverWritten | TftpClient.SmallImageWrittenFixed |
| sys/fota/fota.c:246-255 | `verify_int_ota_slot` sets crc_shadow only in a local copy and returns 0 whether or not the CRC matches | a slot whose image does not match its record's CRC returns 0 | program crc_shadow := crc when the image matches, return -1 otherwise (sys/include/fota.h:126-135) | high, not executed | Fota.VerifyIntOtaSlotIgnoresOutcome | Fota.MarkOutcomeValidates |
| sys/fota/fota.c:539 | `flashpage_write_and_verify` programs FLASHPAGE_SIZE bytes starting at the 16-byte record, so the rest of the page, the running image's vector table included, becomes RAM contents | any call whose RAM after the record differs from the image | write only the record and keep the rest of the page | high, not executed | Fota.CurrentFirmwareReplacesImage | Fota.CurrentFirmwareFixedKeepsImage |
| sys/fota/fota.c:145 | the metadata address adds CPU_FLASH_BASE, which in an OTA build is the running image's vector table (cpu/stm32f1/include/cpu_conf.h:95-96) | an OTA build for slot 1 reading slot 2's metadata | the page's address from flash start | medium, not executed | Fota.MetadataAddressInBuilds | Fota.GetIntMetadata |
| examples/OTA_example/generate-metadata.c:165-169 | an unverified image gets crc_shadow = 0, which equals its crc when that is 0, so the slot manager takes it as verified | the empty image, whose CRC is 0 | an unverified marker that can never equal crc | medium, not executed | GenerateMetadata.UnverifiedEmptyImageIsValid | GenerateMetadata.RecordFixedValidity |
| sys/fota/fota.c:113-121 | the 32-bit word address wraps before reaching an end address in the last word of the address space, so the loop never ends | an image whose start + size lies in (2^32 - 4, 2^32) | stop at the end or reject such sizes | medium, not executed | Fota.VerifyOtaCrcNeverEnds | Fota.SlotCrcOfFittingImage |
