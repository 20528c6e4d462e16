# Safe and secure firmware update: a verified model

This project models the firmware that updates itself over Ethernet on a dual-bank SAM4SD32 microcontroller, and
proves what an update, a failure in the middle of one, and the gateway that shares the device with it can and cannot
do. `dafny verify dfyconfig.toml` verifies everything.

## What is modelled

| file | part of the system |
|---|---|
| `NorFlash` | the two flash controllers: NOR cells, page latches, lock bits, GPNVM bits, commands that may fail |
| `FlashService`, `FlashLocks`, `FlashDriver` | the flash service: addresses under bank swap, erase, read-modify-write, region locks |
| `LinearFeedback`, `Crc32` | the CRC-32, bit by bit and by table, and what it detects |
| `Frame`, `Gcm`, `HostUpdate` | frames and acknowledgements, the cipher, and the frames as a host builds them |
| `Upgrade` | the upgrade session, the switching timer and the bank switch as a state machine over packets, polls and resets |
| `Protocol` | the same as a host sees it: two images, accepted frames, a pending switch |
| `UpgradeRefinement`, `Installation` | the first behaves as the second; a whole update, end to end |
| `UpgradeSafety`, `UpgradeIntegrity` | what holds on every device, whatever fails |
| `UpgradeReplies` | what the host is told: acceptance, refusal words, session ends, and known answers byte by byte |
| `UpgradeMisread` | exactly what failed reads of GPNVM2 do to the running image while a frame is stored |
| `UpgradeDriver` | the session as static variables, buffers and loops, refining `Upgrade` |
| `Clock`, `LwipTimers` | the 32-bit millisecond counter and the lwIP timer table |
| `UartGateway`, `PoolDriver` | the Ethernet-to-UART pool as a concurrent system, and as the routines that change it in place |
| `SendQueue` | replies queued on a TCP connection |
| `Packets`, `Server` | the receive callback, and the application as a whole: session, pool, queues and restarts |
| `PioHandler` | interrupt dispatch |

Operations that the C code performs in place are methods of a class with the source's variables as fields. Each is
proved to compute a function, and what the source promises is proved of that function: the flash service against its
effect on cells, the session against `Protocol`, the pool and the send queue against invariants over all runs.

## How failures and the outside world appear

- A device carries two scripts that fix in advance which commands and which reads of the GPNVM bits will fail. A
  statement for every device is thus a statement for every pattern of failures. A program or erase command that fails
  leaves arbitrary contents in the pages it addressed. Commands always finish.
- A lock command on a page past the end of a bank finds no region to change; its outcome comes from the script.
- AES-GCM is a function from a vector to a tag and a key stream, both arbitrary. Whether the library reports success
  is a flag that comes with each packet; whether it knows AES at all is settled once, by `upgrade_init`.
- TCP data is a chain of buffers: the data, how much of it lies in the first buffer, and the memory behind the first
  buffer and behind the copy made of a longer chain. What a packet handler can reach is the data and whatever follows,
  long enough for the largest length field.
- The millisecond counter, whether memory can be allocated, the space in the TCP send buffer and the answers of
  `tcp_write` are parameters of the steps that ask for them.
- Times are milliseconds since the last reset, unbounded; the counter shows them modulo 2^32. A reset takes effect at
  once and brings the static variables back to their initial values.
- Page, bank and region sizes and addresses are those of the SAM4SD32 header
  (`firmware/Safe_Secure_Firmware_Update/src/ASF/sam/utils/cmsis/sam4s/include/sam4sd32c.h:480-495`): 512 bytes, 1 MiB,
  8 KiB, 0x400000 and 0x500000.
- `check_integrity` compares a plain `char` with a `uint8_t`; plain `char` is unsigned on the target.
- The receive callback and the main loop run in one thread. The interrupt handler can come between any two accesses the
  main loop makes to shared state in the pool check. It touches the `ongoing` flag of the current slot and the channel,
  which the receive callback does not use, so reception is one step.

## What the proofs brought out

- `translate_address` takes a failed read of the GPNVM bits for "GPNVM2 is clear". With the banks swapped, an erase
  meant for the spare bank then hits the running image, and so does a page program. No packet touches the running image
  if GPNVM2 is clear or can be read; exactly which failed reads do harm to which contents is
  `UpgradeMisread.PacketSparesLow`. The host need not notice: if the spare block was blank already, the frame is stored,
  read back and acknowledged all the same (`UpgradeMisread.AcknowledgedAllTheSame`).
- About the spare bank an acceptance can be trusted: since every frame is read back, a frame answered with success is in
  it whatever failed, and the CRC reported is that of the accepted frames
  (`UpgradeIntegrity.RunStores`, `UpgradeIntegrity.CrcIsOfAccepted`).
- A file that fills the bank is installed, but GET_CRC answers 0 for it (`Installation.UploadAnswersCrc`).
- `file_len` ends where the staged frames end exactly if every frame but the last is full (`Installation.FileLenExact`).
  Otherwise the bytes it covers are what was sent exactly if everything after the first short frame is 0xFF
  (`Installation.StagedMatches`), and GET_CRC can answer a CRC that is not that of the file
  (`Installation.ShortFrameMisses`).
- EXEC looks at neither the CRC nor `file_len`: authenticating and sending EXEC alone orders a switch
  (`Installation.ExecArms`).
- The assertion of `flash_is_locked` admits the address one past the low bank, for which the answer can be wrong
  (`FlashLocks.CountAtBankEnd`).
- `flash_write` leaves the wait states at six when the command of any page it touches fails
  (`FlashService.WaitStatesRestored`, `FlashService.WaitStatesLost`).
- `flash_lock` and `flash_unlock` look at the bank of the start address alone: given a range that reaches from one bank
  into the other they report success and leave the second bank alone (`FlashLocks.RegionsMeet`).
- `upgrade_init` can fail without its caller noticing; the device then refuses every update and is otherwise the same
  (`Upgrade.UnreadyRefuses`).
- The counter difference is one short at each wrap, so both timer services run late, never early.
- The protocol document says that the acknowledgement of a data frame carries the sequence number and then the length;
  the code sends the length first. The model follows the code.

## Model

| member | source | states |
|---|---|---|
| `Installation.Installs` | firmware/Safe_Secure_Firmware_Update/src/network/upgrade/upgrade.c:302-446 | Whole update, from any state with no switch pending and whichever bank runs: authentication, the file in frames of 1024 bytes, EXEC, then polls until the counter has seen more than 3000 ms, with polls, invalid packets and other commands anywhere among the upload. The device has reset, the image mapped low is the file and then 0xFF to a whole number of frames, the image that was running is mapped high, and every packet of the update was answered with success. |
| `Installation.UploadAnswersCrc` | firmware/Safe_Secure_Firmware_Update/src/network/upgrade/upgrade.c:394-405 | After the same upload GET_CRC answers the CRC-32 of the file if the file is shorter than the bank, and 0 if it fills it. |
| `Installation.CrcOfFullFrames` | firmware/Safe_Secure_Firmware_Update/src/network/upgrade/upgrade.c:366-405 | The answer to GET_CRC is the CRC of the concatenated decrypted payloads whenever all accepted frames but the last had 1024 bytes and the total is positive and below the bank size. |
| `Installation.ImageOfFullFrames` | firmware/Safe_Secure_Firmware_Update/src/network/upgrade/upgrade.c:369-382 | For such frames the staged image is the concatenation of the payloads followed by 0xFF, and file_len is the length of the concatenation. |
| `Installation.FileLenExact` | firmware/Safe_Secure_Firmware_Update/src/network/upgrade/upgrade.c:366-382 | For every list of accepted frames: file_len ends where the last frame ends if and only if every frame before the last had 1024 bytes. |
| `Installation.StagedMatches` | firmware/Safe_Secure_Firmware_Update/src/network/upgrade/upgrade.c:366-382 | For every list of accepted frames: the first file_len bytes of the staged image are the decrypted payloads one after the other if and only if everything sent after the first short frame was 0xFF. |
| `Installation.CrcOfMatching` | firmware/Safe_Secure_Firmware_Update/src/network/upgrade/upgrade.c:394-399 | In those cases, while the image is shorter than the bank, GET_CRC answers the CRC of the payloads. |
| `Installation.ShortFrameMisses` | firmware/Safe_Secure_Firmware_Update/src/network/upgrade/upgrade.c:394-399 | After frames of one byte each, 1 and 2, in any session, GET_CRC answers something other than the CRC of what was sent. |
| `Installation.InstallsFromReset` | firmware/Safe_Secure_Firmware_Update/src/network/upgrade/upgrade.c:302-596 | The whole update from a reset, of any file on any two images with either bank running, on a working flash. |
| `UpgradeRefinement.BootRefines` | firmware/Safe_Secure_Firmware_Update/src/network/upgrade/upgrade.c:302-596 | From every reset on a working flash: images and replies are those of the machine that starts with the device's two images. |
| `UpgradeRefinement.RunRefines` | firmware/Safe_Secure_Firmware_Update/src/network/upgrade/upgrade.c:302-596 | Refinement over whole runs: on a flash whose commands and reads work, after every sequence of packets, polls and resets (polls less than 2^31 ms apart while a switch is pending) the firmware's state and all its replies are those of the protocol machine, which knows two images, a list of accepted frames and a pending switch, and nothing of pages, erasing, GPNVM2 or tick counters. |
| `UpgradeRefinement.StepRefines` | firmware/Safe_Secure_Firmware_Update/src/network/upgrade/upgrade.c:302-446 | One event of that refinement: the state after it and the reply to it are the machine's. |
| `UpgradeRefinement.DataRefines` | firmware/Safe_Secure_Firmware_Update/src/network/upgrade/upgrade.c:339-383 | A data frame of a session is accepted, or refused with the same status, exactly as the machine does; check_integrity never fails on a working flash. |
| `UpgradeRefinement.CommandRefines` | firmware/Safe_Secure_Firmware_Update/src/network/upgrade/upgrade.c:384-417 | GET_VERSION, GET_CRC, EXEC and unknown commands are answered as the machine answers them; GET_CRC reads the staged image and not the cells behind it. |
| `UpgradeRefinement.DataWriteExact` | firmware/Safe_Secure_Firmware_Update/src/network/upgrade/upgrade.c:469-497 | data_write on a place that is erased, or about to be, leaves the padded frame there and every other cell of the bank as the machine's Place says; the other bank, the lock bits, the wait states and GPNVM2 stay. |
| `UpgradeRefinement.PageWriteExact` | firmware/Safe_Secure_Firmware_Update/src/network/upgrade/upgrade.c:479-495 | One page of it: eight pages are erased exactly when the page number is a multiple of 8, and programming ANDs the page into what is there. |
| `UpgradeRefinement.FiresExactly` | firmware/Safe_Secure_Firmware_Update/src/network/upgrade/upgrade.c:562-596 | The switch fires at a poll if and only if it is pending and the time counted since the latest EXEC, real time less one per wrap of the tick counter, exceeds 3000 ms. |
| `UpgradeRefinement.PollRefines` | firmware/Safe_Secure_Firmware_Update/src/network/upgrade/upgrade.c:501-521 | A poll that fires exchanges the two images and ends the session; one that does not changes no image. |
| `Protocol.NextWellFormed` | firmware/Safe_Secure_Firmware_Update/src/network/upgrade/upgrade.c:339-383 | In every state of the machine the image mapped high begins with the padded frames accepted so far, in order, and everything from there to the next multiple of eight pages is erased. |
| `Protocol.PlaceExtends` | firmware/Safe_Secure_Firmware_Update/src/network/upgrade/upgrade.c:448-497 | Placing frame n keeps the frames before it, also when it opens a new block of eight pages, and appends its padded text. |
| `Protocol.OpenedErased` | firmware/Safe_Secure_Firmware_Update/src/network/upgrade/upgrade.c:479-487 | When frame n is due its whole place is erased: by the erase it triggers, or by the one that opened its block. |
| `Installation.ExecArms` | firmware/Safe_Secure_Firmware_Update/src/network/upgrade/upgrade.c:406-409 | In any session, whatever it has taken in, EXEC is answered with success and makes a switch pending from its time on. |
| `UpgradeIntegrity.RunStores` | firmware/Safe_Secure_Firmware_Update/src/network/upgrade/upgrade.c:359-383 | In every run on every device, with commands and GPNVM reads failing at will: while a session lasts, its sequence number and file_len count the frames answered with success, and each of them stands decrypted, byte for byte, at 1024 times its number in the bank mapped high. |
| `UpgradeIntegrity.CrcIsOfAccepted` | firmware/Safe_Secure_Firmware_Update/src/network/upgrade/upgrade.c:394-399 | In every such run GET_CRC in a session answers the CRC of the frames the session has accepted, if all but the last were full and they do not fill the bank. |
| `UpgradeIntegrity.SwitchRunsAccepted` | firmware/Safe_Secure_Firmware_Update/src/network/upgrade/upgrade.c:501-521 | In every such run, when the switch fires during a session and GPNVM2 does flip, the image then mapped low holds every frame of that session. |
| `UpgradeIntegrity.DataWriteKeepsBelow` | firmware/Safe_Secure_Firmware_Update/src/network/upgrade/upgrade.c:469-497 | Whatever fails on the way, data_write changes no cell below the address it was given, in either bank, and not the mapping. |
| `UpgradeSafety.SessionInvariant` | firmware/Safe_Secure_Firmware_Update/src/network/upgrade/upgrade.c:216-446 | In every reachable state on every device: without a session the sequence number is -1 and the length 0; with one, the vector in use is the one whose tag matched, the sequence number plus one is the number of frames accepted since, and that number <= file_len <= 1024 times it <= 1 MiB. |
| `UpgradeSafety.HandleMoves` | firmware/Safe_Secure_Firmware_Update/src/network/upgrade/upgrade.c:302-446 | A packet that is refused leaves the session as it was or fully reset; one that is accepted starts it with a matching vector, adds the next frame, or leaves it. |
| `UpgradeReplies.AcceptedExactly` | firmware/Safe_Secure_Firmware_Update/src/network/upgrade/upgrade.c:302-446 | On every device a packet is accepted if and only if it is a valid authentication the cipher confirms; or, in a session, the next data frame of acceptable length that the cipher decrypts, whose two or three flash commands all succeed and which reads back from the spare bank as decrypted; or, in a session, one of the three commands. |
| `UpgradeReplies.SessionEndsExactly` | firmware/Safe_Secure_Firmware_Update/src/network/upgrade/upgrade.c:302-446 | On every device a packet ends the session it comes into if and only if it is an authentication that fails, a data frame with a number up to 1023 that is not the next, or a frame that could not be stored; after any other refusal the session is as it was. |
| `UpgradeReplies.RefusedWithWord` | firmware/Safe_Secure_Firmware_Update/src/network/upgrade/upgrade.c:321-445 | Every refused packet, in every state of every device, is answered with the word of its fault, each of the eight spelled out. |
| `UpgradeReplies.AcceptedWithWord` | firmware/Safe_Secure_Firmware_Update/src/network/upgrade/upgrade.c:311-410 | Every accepted packet is answered with its own word: 0xFFFF0000, its length and number, or the version. |
| `UpgradeReplies.RefusalIsNoAck` | firmware/Safe_Secure_Firmware_Update/src/network/upgrade/upgrade.c:321-445 | No refused packet is answered with a frame that acknowledges any data frame of acceptable length, or with the frame of success. |
| `UpgradeReplies.AcknowledgedExactly` | firmware/Safe_Secure_Firmware_Update/src/network/upgrade/upgrade.c:339-383 | On every device, whatever fails, a data frame of acceptable length is answered with its acknowledgement if and only if it was accepted. |
| `UpgradeReplies.FrameOutcome` | firmware/Safe_Secure_Firmware_Update/src/network/upgrade/upgrade.c:469-497 | data_write succeeds if and only if its flash commands do: one per page, and an erase before every eighth page. |
| `UpgradeReplies.ExecByTheByte` | firmware/Safe_Secure_Firmware_Update/src/network/upgrade/upgrade.c:406-409 | The frame 5B 55 50 47 52 41 44 45 08 02 55 AA 04 02 5D: in a session the answer is 5B..45 08 03 FF FF 00 00 5D and a poll after 3000 ms does not fire, one after 3001 does; outside a session the answer is ..FF FF 00 01 5D and the timer stays. |
| `UpgradeReplies.QueriesByTheByte` | firmware/Safe_Secure_Firmware_Update/src/network/upgrade/upgrade.c:391-405 | The two queries, byte by byte: version 00 01 00 00, and 00 00 00 00 for the CRC before any frame. |
| `UpgradeReplies.AuthenticationByTheByte` | firmware/Safe_Secure_Firmware_Update/src/network/upgrade/upgrade.c:325-337 | Authentication, byte by byte: answer, session and vector in both outcomes. |
| `UpgradeReplies.DataByTheByte` | firmware/Safe_Secure_Firmware_Update/src/network/server/server.c:204-226 | The frame for an accepted data frame carries that frame's bytes 12, 13, 10 and 11. |
| `UpgradeReplies.AfterReset` | firmware/Safe_Secure_Firmware_Update/src/network/upgrade/upgrade.c:60-89 | The session, the vector and the timer after a reset, byte by byte. |
| `UpgradeSafety.RunKeepsLow` | firmware/Safe_Secure_Firmware_Update/src/network/upgrade/upgrade.c:302-446 | Over every run in which the switch does not fire, with commands failing at will, the mapping never changes, and if GPNVM2 is clear or can be read the image mapped low keeps every byte. |
| `UpgradeSafety.EraseSparesLow` | firmware/Safe_Secure_Firmware_Update/src/ASF/sam/services/flash_efc/flash_efc.c:171-190 | That condition is exact for the erase: when translate_address cannot read a GPNVM2 that is set, an erase meant for the bank mapped high hits the running image; otherwise it spares it. |
| `UpgradeSafety.MisreadErasesLow` | firmware/Safe_Secure_Firmware_Update/src/ASF/sam/services/flash_efc/flash_efc.c:172-190 | A device on which it happens: GPNVM2 set, one failed read, and the erase reports success. |
| `UpgradeMisread.PageWriteSparesLow` | firmware/Safe_Secure_Firmware_Update/src/network/upgrade/upgrade.c:479-495 | One page of data_write, commands working, with and without the erase: the running image stays as it is if and only if the banks are not swapped, or the contents allow for what the reads that fail make of it. A page erased by mistake was blank or is programmed back, one programmed by mistake has no bit to clear, and the rest of an erased block was blank. |
| `UpgradeMisread.PacketSparesLow` | firmware/Safe_Secure_Firmware_Update/src/network/upgrade/upgrade.c:302-383 | The same for a whole packet of any kind, commands working: if and only if it is turned away before anything is written, or the banks are not swapped, or both pages of its frame and the rest of the block allow for the reads that fail. |
| `UpgradeMisread.AcknowledgedAllTheSame` | firmware/Safe_Secure_Firmware_Update/src/network/upgrade/upgrade.c:369-382 | If the read that directs the erase is the only one to fail and the spare block was blank already, every frame that opens a block is stored, read back and acknowledged with success while a block of the running image is erased. |
| `UpgradeMisread.FirstFrameErasesRunning` | firmware/Safe_Secure_Firmware_Update/src/network/upgrade/upgrade.c:369-382 | A device, a session and, for every payload, a first frame to which this happens. |
| `UpgradeSafety.FiringSwaps` | firmware/Safe_Secure_Firmware_Update/src/network/upgrade/upgrade.c:501-521 | When the switch fires no cell changes and the session is gone; the banks change places if and only if GPNVM2 could be read where it was set and the command worked. |
| `UpgradeSafety.SwitchIsLate` | firmware/Safe_Secure_Firmware_Update/src/network/upgrade/upgrade.c:562-596 | With time never going back, however far apart the polls and however often the counter wraps: the switch fires only after an EXEC handled in an authenticated session since the last reset, and only when more than 3000 ms have really passed since the latest one. |
| `Upgrade.SwitchFlips` | firmware/Safe_Secure_Firmware_Update/src/network/upgrade/upgrade.c:501-521 | code_switching flips GPNVM2 if and only if it could be read where it was set and the command then issued succeeded. |
| `Gcm.CryptTwice` | firmware/Safe_Secure_Firmware_Update/src/network/upgrade/upgrade.c:448-466 | Counter mode is its own inverse, for every key stream: what the host encrypts the device decrypts. |
| `Gcm.CryptRevealsStream` | firmware/Safe_Secure_Firmware_Update/src/network/upgrade/upgrade.c:448-466 | Text and cipher text together give, at every place, the key stream of this vector at this place. |
| `Gcm.CryptIsOnly` | firmware/Safe_Secure_Firmware_Update/src/network/upgrade/upgrade.c:448-466 | And no other text of that length does: decryption is fixed by the key stream. |
| `Upgrade.UnreadyRefuses` | firmware/Safe_Secure_Firmware_Update/src/network/upgrade/upgrade.c:104-115 | When upgrade_init has found no cipher, which its caller (eth_app.c:141) does not look at: every packet is refused, no session begins and the flash stays. The answers are those of a device whose cipher fails on every packet, if and only if the packet is not a data frame with exactly one of the right CRC and all ones in its CRC field. |
| `UpgradeDriver.Updater.constructor` | firmware/Safe_Secure_Firmware_Update/src/network/upgrade/upgrade.c:54-89 | The static variables after a reset: session at rest, table unbuilt, no cipher. |
| `UpgradeDriver.Updater.UpgradeInit` | firmware/Safe_Secure_Firmware_Update/src/network/upgrade/upgrade.c:104-133 | Builds the table and reports success if and only if the cipher is found; otherwise nothing changes. |
| `UpgradeDriver.Updater.IsPktValid` | firmware/Safe_Secure_Firmware_Update/src/network/upgrade/upgrade.c:165-214 | Verdict and acknowledgement word of Frame.RefusedWord and HostUpdate.AcceptedExactly, by the table as it is: with the real CRC once it is built, with all ones before. |
| `UpgradeDriver.Updater.AuthenticatingFrame` | firmware/Safe_Secure_Firmware_Update/src/network/upgrade/upgrade.c:232-300 | The vector is taken over in any case; success if and only if there is a cipher, it worked, and all 16 tag bytes agree. |
| `UpgradeDriver.Updater.DataDecrypt` | firmware/Safe_Secure_Firmware_Update/src/network/upgrade/upgrade.c:448-466 | Success if and only if there is a cipher and it worked; then payload and buffer together give the key stream of the vector in use at every place of the payload, and the buffer is 0xFF behind it. Without a cipher it is not touched. |
| `UpgradeDriver.Updater.WriteImage` | firmware/Safe_Secure_Firmware_Update/src/network/upgrade/upgrade.c:469-497 | The loop of data_write computes the specified device and return code, also when a command fails part of the way. |
| `UpgradeDriver.Updater.CheckIntegrity` | firmware/Safe_Secure_Firmware_Update/src/network/upgrade/upgrade.c:524-555 | Answers whether the flash holds exactly the decrypted bytes. |
| `UpgradeDriver.Updater.HandleDataFrame` | firmware/Safe_Secure_Firmware_Update/src/network/upgrade/upgrade.c:339-383 | In place: session, flash and reply are those specified, on every branch. |
| `UpgradeDriver.Updater.HandleCommandFrame` | firmware/Safe_Secure_Firmware_Update/src/network/upgrade/upgrade.c:384-417 | In place: reply and timer are those specified. |
| `UpgradeDriver.Updater.HandleUpgradePacket` | firmware/Safe_Secure_Firmware_Update/src/network/upgrade/upgrade.c:302-446 | In place: the whole new state and the reply are those of the state machine the theorems above are about, or, without a cipher, of the device that refuses everything. |
| `UpgradeDriver.Updater.SwitchCode` | firmware/Safe_Secure_Firmware_Update/src/network/upgrade/upgrade.c:501-521 | In place: the flash is as specified for code_switching. |
| `UpgradeDriver.Updater.PollTimer` | firmware/Safe_Secure_Firmware_Update/src/network/upgrade/upgrade.c:562-587 | In place: timer, switch and reset are as specified. |
| `HostUpdate.AcceptedExactly` | firmware/Safe_Secure_Firmware_Update/src/network/upgrade/upgrade.c:165-214 | Behind the header, a packet is valid if and only if it begins with a frame a host can build: some vector and tag, some number and payload with its CRC, or some command. |
| `HostUpdate.DataReads` | firmware/Safe_Secure_Firmware_Update/src/network/upgrade/upgrade.c:302-323 | Round trip: a data frame is valid and is read back with the number, length and payload the host put in, whatever follows it in memory. |
| `HostUpdate.AuthenticationReads` | firmware/Safe_Secure_Firmware_Update/src/network/upgrade/upgrade.c:232-240 | Round trip for the vector and the tag. |
| `HostUpdate.CommandReads` | firmware/Safe_Secure_Firmware_Update/src/network/upgrade/upgrade.c:385-390 | Round trip for a command word. |
| `Frame.BurstRejected` | firmware/Safe_Secure_Firmware_Update/src/network/upgrade/upgrade.c:177-195 | A valid data frame altered in at most four neighbouring bytes of header, number or payload, with its type, length and tail intact, is refused with the CRC error. |
| `Frame.CrcFieldRejected` | firmware/Safe_Secure_Firmware_Update/src/network/upgrade/upgrade.c:178-189 | So is one whose CRC field alone is altered, in any way. |
| `Frame.RefusedWord` | firmware/Safe_Secure_Firmware_Update/src/network/upgrade/upgrade.c:165-214 | A packet that is not valid is answered with 0xFFFF0006 if it is a data frame whose tail is in place, and with 0xFFFF0002 in every other case. |
| `Frame.AckRoundTrip` | firmware/Safe_Secure_Firmware_Update/src/network/upgrade/upgrade.c:311-319 | The acknowledgement of a data frame decodes to that frame's length and sequence number, in this order, and ends with the tail. |
| `Frame.StatusRoundTrip` | firmware/Safe_Secure_Firmware_Update/src/network/server/server.c:204-226 | A host that reads the word of a status frame in network order gets the status; the frame ends with the tail. |
| `Frame.AckBytes` | firmware/Safe_Secure_Firmware_Update/src/network/server/server.c:204-226 | All fifteen bytes of the frame for any word: the eight of the header, 0x08 0x03, the word with its lowest byte first, 0x5D. |
| `Frame.AckIsNoStatus` | firmware/Safe_Secure_Firmware_Update/src/network/upgrade/upgrade.h:116-148 | It is never the acknowledgement of any 0xFFFFxxxx status, for every frame of acceptable length. |
| `Frame.GenerateAckFrame` | firmware/Safe_Secure_Firmware_Update/src/network/server/server.c:204-226 | generate_ack_frame fills the 15 bytes with header, type, word and tail. |
| `Crc32.CrcIsBytewise` | firmware/Safe_Secure_Firmware_Update/src/network/upgrade/upgrade.c:153-163 | The bit-at-a-time reflected CRC-32 (section 8 of RFC 1952) of a message is the byte-at-a-time one, for every message. |
| `Crc32.InitTable` | firmware/Safe_Secure_Firmware_Update/src/network/upgrade/upgrade.c:135-151 | Entry b of the table is the register after eight steps from b. |
| `Crc32.TableStep` | firmware/Safe_Secure_Firmware_Update/src/network/upgrade/upgrade.c:157-160 | One table look-up is one byte of the definition, for every register and byte. |
| `Crc32.TableComputes` | firmware/Safe_Secure_Firmware_Update/src/network/upgrade/upgrade.c:153-163 | The table-driven register gives the bitwise CRC of every byte sequence. |
| `Crc32.UnbuiltDrains` | firmware/Safe_Secure_Firmware_Update/src/network/upgrade/upgrade.c:153-163 | On an unbuilt table it runs empty after four bytes, whatever they are. |
| `Crc32.CalcCrc` | firmware/Safe_Secure_Firmware_Update/src/network/upgrade/upgrade.c:153-163 | calc_crc computes the bitwise CRC of every byte sequence with the table of init_crc32_table, and all ones for four bytes or more with an unbuilt one. |
| `Crc32.BurstDetected` | firmware/Safe_Secure_Firmware_Update/src/network/upgrade/upgrade.c:153-163 | Two messages of equal length that differ only within four neighbouring bytes have different CRCs. |
| `Crc32.CheckValue` | firmware/Safe_Secure_Firmware_Update/src/network/upgrade/upgrade.c:134-163 | The CRC of the digits 1 to 9 is the published check value 0xCBF43926. |
| `FlashService.WriteExact` | firmware/Safe_Secure_Firmware_Update/src/ASF/sam/services/flash_efc/flash_efc.c:595-668 | flash_write replaces (or, without the erase flag, ANDs into) exactly the bytes [addr, addr+size) of the bank mapped there, for every offset and number of pages and either value of GPNVM2; the other bank, lock bits, wait states and GPNVM bits stay. |
| `FlashService.WriteContained` | firmware/Safe_Secure_Firmware_Update/src/ASF/sam/services/flash_efc/flash_efc.c:595-668 | Whatever fails, flash_write changes no cell of the bank translate_address did not name, no lock bit and no GPNVM bit. |
| `FlashService.WaitStatesRestored` | firmware/Safe_Secure_Firmware_Update/src/ASF/sam/services/flash_efc/flash_efc.c:612-667 | On every device: flash_write succeeds if and only if the command of each page it touches does, and the controller it works on has its own wait states back if and only if that is so or they were six; otherwise they are left at six. The other controller keeps its own. |
| `FlashService.WaitStatesLost` | firmware/Safe_Secure_Firmware_Update/src/ASF/sam/services/flash_efc/flash_efc.c:653-655 | A device, with no wait states and its second command failing, on which writing any two pages leaves the running bank at six. |
| `FlashService.WriteAnswers` | firmware/Safe_Secure_Firmware_Update/src/ASF/sam/services/flash_efc/flash_efc.c:645-655 | On every device flash_write answers the error flags of the first command that fails among those of the pages it touches, or 0. |
| `FlashService.EraseAnswers` | firmware/Safe_Secure_Firmware_Update/src/ASF/sam/services/flash_efc/flash_efc.c:536-551 | On every device flash_erase_page answers 0x11 for a wrong code or address, 0x10 if the command fails, 0 otherwise. |
| `FlashService.GpnvmReadsExactly` | firmware/Safe_Secure_Firmware_Update/src/ASF/sam/services/flash_efc/flash_efc.c:906-924 | flash_is_gpnvm_set answers yes or no truly, 0x10 if the read fails, 0x11 for a bit that does not exist; each if and only if. |
| `FlashService.GpnvmChangesExactly` | firmware/Safe_Secure_Firmware_Update/src/ASF/sam/services/flash_efc/flash_efc.c:854-895 | On every device flash_set_gpnvm and flash_clear_gpnvm succeed if and only if the bit exists and already reads as wanted or the command works; then it is as wanted, otherwise nothing changes, and no other bit ever does. |
| `NorFlash.AndBits` | firmware/Safe_Secure_Firmware_Update/src/ASF/sam/services/flash_efc/flash_efc.c:648-650 | Programming without erasing never sets a bit and clears exactly those that are 0 in what is programmed. |
| `FlashService.TranslateHits` | firmware/Safe_Secure_Firmware_Update/src/ASF/sam/services/flash_efc/flash_efc.c:154-216 | translate_address names the bank really mapped at the address if and only if it is not the case that GPNVM2 is set and its read fails. |
| `FlashService.ComputeInvertsTranslate` | firmware/Safe_Secure_Firmware_Update/src/ASF/sam/services/flash_efc/flash_efc.c:226-267 | compute_address undoes translate_address if and only if both reads of GPNVM2 gave the same answer, or it is clear. |
| `FlashService.OrCodeExact` | firmware/Safe_Secure_Firmware_Update/src/ASF/sam/services/flash_efc/flash_efc.c:546-547 | Or-ing the erase code into the page number asks for the number of pages the code stands for if and only if the low bits of the page number add nothing to it; what it denotes is always the aligned block of its size that holds the page. |
| `FlashService.EraseExact` | firmware/Safe_Secure_Firmware_Update/src/ASF/sam/services/flash_efc/flash_efc.c:531-552 | flash_erase_page for every address in a bank and every code: refused without effect if the code or the alignment is wrong, otherwise exactly the block asked for by code and page number together, of the bank mapped at the address, is 0xFF afterwards. |
| `FlashService.EraseContained` | firmware/Safe_Secure_Firmware_Update/src/ASF/sam/services/flash_efc/flash_efc.c:531-552 | Whatever fails, flash_erase_page stays inside the bank translate_address named. |
| `FlashLocks.LockRangeExact` | firmware/Safe_Secure_Firmware_Update/src/ASF/sam/services/flash_efc/flash_efc.c:682-765 | For every start and end in the flash, also in different banks or one past a bank: flash_lock adds, and flash_unlock removes, in the bank mapped at the start, the regions from the number of the start's to the number of the end's, as far as the bank has them; no other lock bit and no cell changes. |
| `FlashLocks.RegionsMeet` | firmware/Safe_Secure_Firmware_Update/src/ASF/sam/services/flash_efc/flash_efc.c:277-293 | Those are exactly the regions that share an address with the range if and only if the range does not reach from one bank into the other. |
| `FlashLocks.LockRangeStops` | firmware/Safe_Secure_Firmware_Update/src/ASF/sam/services/flash_efc/flash_efc.c:707-717 | On every device flash_lock and flash_unlock stop at the first command that fails: its error flags are the answer, and exactly the regions before it have changed. |
| `FlashLocks.LockedCountIsSize` | firmware/Safe_Secure_Firmware_Update/src/ASF/sam/services/flash_efc/flash_efc.c:829-842 | Counting bits along a range of regions gives the size of the set of locked regions in it. |
| `FlashLocks.CountInBank` | firmware/Safe_Secure_Firmware_Update/src/ASF/sam/services/flash_efc/flash_efc.c:775-843 | For every range the assertion lets in but those that end one past the low bank, so also for those that end one past the high one, the count is the number of locked regions from the start's to the end's. |
| `FlashLocks.CountAtBankEnd` | firmware/Safe_Secure_Firmware_Update/src/ASF/sam/services/flash_efc/flash_efc.c:789-793 | For the end address one past the low bank, which the assertion lets in, the answer is that number up to the end of the bank if and only if the range starts in region 2 or later or regions 1 to 127 are all unlocked. |
| `FlashDriver.Flash.TranslateAddress` | firmware/Safe_Secure_Firmware_Update/src/ASF/sam/services/flash_efc/flash_efc.c:154-216 | In place: controller, page, offset and what is left of the read script are as specified. |
| `FlashDriver.Flash.AddressOf` | firmware/Safe_Secure_Firmware_Update/src/ASF/sam/services/flash_efc/flash_efc.c:226-267 | In place, for compute_address. |
| `FlashDriver.Flash.IsGpnvm` | firmware/Safe_Secure_Firmware_Update/src/ASF/sam/services/flash_efc/flash_efc.c:906-924 | In place, with both error returns. |
| `FlashDriver.Flash.ChangeGpnvmBit` | firmware/Safe_Secure_Firmware_Update/src/ASF/sam/services/flash_efc/flash_efc.c:854-895 | In place, for flash_set_gpnvm and flash_clear_gpnvm: no command when the bit already reads as wanted. |
| `FlashDriver.Flash.Erase` | firmware/Safe_Secure_Firmware_Update/src/ASF/sam/services/flash_efc/flash_efc.c:531-552 | In place, with both argument errors. |
| `FlashDriver.Flash.WriteData` | firmware/Safe_Secure_Firmware_Update/src/ASF/sam/services/flash_efc/flash_efc.c:595-668 | In place over the shared page buffer: the loop computes the specified device and return code, the wait states being put back only on success. |
| `FlashDriver.Flash.ChangeRegionLocks` | firmware/Safe_Secure_Firmware_Update/src/ASF/sam/services/flash_efc/flash_efc.c:682-765 | In place: the loop issues the specified commands, stops at the first failure, and reports the range widened to whole regions. |
| `FlashDriver.Flash.CountLocked` | firmware/Safe_Secure_Firmware_Update/src/ASF/sam/services/flash_efc/flash_efc.c:775-843 | In place: error flags if the status command fails, otherwise the number of locked regions. |
| `FlashDriver.Flash.WalkStatus` | firmware/Safe_Secure_Firmware_Update/src/ASF/sam/services/flash_efc/flash_efc.c:815-842 | The walk over 32-bit status words, first skipping whole words, counts exactly the locked regions of the range, across word boundaries. |
| `Clock.ElapsedCounts` | firmware/Safe_Secure_Firmware_Update/src/network/ethernet.c:125-130 | For readings less than 2^32 ms apart the computed difference is real time less one per wrap of the counter. |
| `Clock.ElapsedAtMost` | firmware/Safe_Secure_Firmware_Update/src/network/upgrade/upgrade.c:568-573 | It never exceeds what has really passed, however long the gap. |
| `Clock.MarkedElapsed` | firmware/Safe_Secure_Firmware_Update/src/network/upgrade/upgrade.c:575-576 | The same holds from the reading the service actually keeps, although a difference of zero is not stored. |
| `LwipTimers.Timers.Update` | firmware/Safe_Secure_Firmware_Update/src/network/ethernet.c:119-148 | In place: every entry of the table is advanced by the same difference, or none. |
| `LwipTimers.TimeConserved` | firmware/Safe_Secure_Firmware_Update/src/network/ethernet.c:132-146 | Over every sequence of polls: runs times interval, plus what the entry holds, plus 2^32 for each overflow of its sum, is the time counted. |
| `LwipTimers.RunsExactly` | firmware/Safe_Secure_Firmware_Update/src/network/ethernet.c:132-146 | If no difference the service computes exceeds the interval, the callback has run exactly (T-1) div interval times after counted time T > 0. |
| `LwipTimers.GapsPrompt` | firmware/Safe_Secure_Firmware_Update/src/network/ethernet.c:125-133 | No such difference exceeds the interval if no real gap between polls does. |
| `LwipTimers.RunsInRealTime` | firmware/Safe_Secure_Firmware_Update/src/network/ethernet.c:119-148 | So with real gaps within the interval the callback has run exactly (T-1) div interval times, T being the real time less one per wrap of the counter. |
| `LwipTimers.OncePerPoll` | firmware/Safe_Secure_Firmware_Update/src/network/ethernet.c:138-145 | A poll runs a callback at most once, if and only if time has passed and the sum then exceeds the interval; what is in arrears waits for the next poll. |
| `LwipTimers.CountsRealTime` | firmware/Safe_Secure_Firmware_Update/src/network/ethernet.c:125-133 | Over polls in order, the time counted is real time less one per wrap. |
| `UartGateway.RunKeeps` | firmware/Safe_Secure_Firmware_Update/src/network/network.c:70-157 | The invariant of pool, channel and main loop holds after every interleaving of main-loop steps, receptions, ends of transfer and interrupts. |
| `UartGateway.StepKeeps` | firmware/Safe_Secure_Firmware_Update/src/network/network.c:108-157 | Each single step of main loop, interrupt handler, channel and receive callback keeps it. |
| `UartGateway.OneOngoing` | firmware/Safe_Secure_Firmware_Update/src/network/network.c:108-157 | At most one slot is ongoing and it is cur_pool; outside the pool check the channel and its interrupt are enabled exactly while it is. |
| `UartGateway.PoolCheckIsAtomic` | firmware/Safe_Secure_Firmware_Update/src/network/network.c:108-157 | No interrupt is due at any point inside check_uart_data_pool. |
| `UartGateway.ChannelIdle` | firmware/Safe_Secure_Firmware_Update/src/network/network.c:89-106 | pdc_uart_send_data always finds the channel idle and the head of the queue to send. |
| `UartGateway.EmptySlotCleared` | firmware/Safe_Secure_Firmware_Update/src/network/network.c:128-141 | A slot whose queue has run empty is given back without an address; one that still holds chunks keeps it and goes on. |
| `UartGateway.InOrderPerConnection` | firmware/Safe_Secure_Firmware_Update/src/network/server/server.c:293-361 | At every moment what has gone out for a connection is a prefix of what was queued for it: each chunk once, in order of arrival. |
| `UartGateway.FreedAfterSent` | firmware/Safe_Secure_Firmware_Update/src/network/network.c:119-126 | Chunks are freed in the order of their transmission, only after it ended, and at most one is sent and not yet freed. |
| `UartGateway.WindowConserved` | firmware/Safe_Secure_Firmware_Update/src/network/server/server.c:249-364 | Bytes received are bytes credited plus bytes queued; the buffers freed are the buffers received, each as often as it came and in the same order; outside the pool check dirty means exactly a non-empty queue; no two dirty slots share a connection. |
| `UartGateway.AcceptsExactly` | firmware/Safe_Secure_Firmware_Update/src/network/server/server.c:255-362 | Data is queued if and only if the eight bytes of memory at its start are not 5B 55 50 47 52 41 44 45, a slot is clean or already serves the connection, and memory is there; so it is, with room and memory, whenever one of its own first bytes differs from these. Otherwise no queue changes and the bytes are credited at once. |
| `Packets.UpgradeExactly` | firmware/Safe_Secure_Firmware_Update/src/network/server/server.c:255-256 | The header test, byte by byte over the memory at the start of the data, also for a first buffer shorter than the header. |
| `Packets.SeenAsSent` | firmware/Safe_Secure_Firmware_Update/src/network/server/server.c:259-283 | Every byte the packet handler can read: the data of the whole chain, then what lies behind the copy if there was more than one buffer, behind the only one otherwise. |
| `UartGateway.NothingLost` | firmware/Safe_Secure_Firmware_Update/src/network/server/server.c:293-361 | Once no slot is dirty, everything queued for a connection has gone out. |
| `UartGateway.NeverStuck` | firmware/Safe_Secure_Firmware_Update/src/network/network.c:108-157 | While a slot is dirty some step other than a reception changes the state, and every such step comes closer to having sent everything. |
| `UartGateway.DrainsWithin` | firmware/Safe_Secure_Firmware_Update/src/network/network.c:70-157 | From any reachable state, with no more receptions and the other steps in any order: after a number of effective steps fixed by that state no slot is dirty any more. |
| `UartGateway.CanDrain` | firmware/Safe_Secure_Firmware_Update/src/network/network.c:70-157 | And some sequence of at most that many steps gets there. |
| `PoolDriver.CheckMovesOn` | firmware/Safe_Secure_Firmware_Update/src/network/network.c:108-157 | One call of check_uart_data_pool with no transfer going on frees exactly the chunk whose transfer ended, and leaves either the channel loaded with the head of a queue or nothing waiting. |
| `PoolDriver.SettleKeeps` | firmware/Safe_Secure_Firmware_Update/src/network/network.c:108-157 | Running the steps of the pool check to its end keeps the invariant. |
| `PoolDriver.UartPool.CheckPool` | firmware/Safe_Secure_Firmware_Update/src/network/network.c:108-157 | In place: the function as a whole is those steps. |
| `PoolDriver.UartPool.UartHandler` | firmware/Safe_Secure_Firmware_Update/src/network/network.c:70-87 | In place, for the interrupt handler. |
| `PoolDriver.UartPool.SendByDma` | firmware/Safe_Secure_Firmware_Update/src/network/network.c:89-106 | In place: nothing if the channel is enabled, otherwise the channel is loaded and its interrupt enabled. |
| `PoolDriver.UartPool.PickSlot` | firmware/Safe_Secure_Firmware_Update/src/network/network.c:143-156 | In place: the scan takes the first dirty slot. |
| `PoolDriver.UartPool.ServerRecv` | firmware/Safe_Secure_Firmware_Update/src/network/server/server.c:255-364 | In place: the two scans over the slots, the append, and on every way out the credit and the free that belong to it compute the specified acceptance. |
| `SendQueue.QueueInOrder` | firmware/Safe_Secure_Firmware_Update/src/network/server/server.c:102-202 | Over every run in which no tcp_write fails for good: the bytes written are a prefix of all bytes queued, only the head is partly written, acknowledgements never run ahead of it, the buffers freed are the first ones and fully acknowledged, and one fully acknowledged is freed at once. |
| `SendQueue.RunKeeps` | firmware/Safe_Secure_Firmware_Update/src/network/server/server.c:102-202 | The invariant behind it holds after every such run, byte for byte. |
| `SendQueue.QueuedExactly` | firmware/Safe_Secure_Firmware_Update/src/network/server/server.c:131-163 | Until a write fails for good the bytes queued are exactly the replies there was memory for, one after the other. |
| `SendQueue.NeverStalls` | firmware/Safe_Secure_Firmware_Update/src/network/server/server.c:102-202 | As long as the send buffer has room and no write fails for good: whenever anything is queued something written is still unacknowledged, so TCP will call back; and the queue is empty if and only if everything ever queued has been acknowledged. |
| `SendQueue.FailsByWritingOnly` | firmware/Safe_Secure_Firmware_Update/src/network/server/server.c:131-202 | Nothing but a write can fail a connection: not a lack of memory for a reply, and no acknowledgement. |
| `SendQueue.TryHalves` | firmware/Safe_Secure_Firmware_Update/src/network/server/server.c:115-121 | The halving loop ends; after k refusals it has handed over the length halved k times, or has given up because the length came down to 1. |
| `SendQueue.WritesWhatFits` | firmware/Safe_Secure_Firmware_Update/src/network/server/server.c:102-129 | What one call hands to TCP: the next bytes of the head, as many as the send buffer takes, halved for every refusal; the rest of the list stays. |
| `SendQueue.AcknowledgedKeeps` | firmware/Safe_Secure_Firmware_Update/src/network/server/server.c:174-202 | server_sent keeps the invariant for every acknowledgement TCP can give. |
| `SendQueue.Client.SendDataToClient` | firmware/Safe_Secure_Firmware_Update/src/network/server/server.c:102-129 | In place, with the retry loop. |
| `SendQueue.Client.SendData` | firmware/Safe_Secure_Firmware_Update/src/network/server/server.c:131-163 | In place: append, and start sending if the list was empty. |
| `SendQueue.Client.ServerSent` | firmware/Safe_Secure_Firmware_Update/src/network/server/server.c:174-202 | In place. |
| `Server.AcksReachTcpInOrder` | firmware/Safe_Secure_Firmware_Update/src/network/server/server.c:249-291 | Over every run of the whole application: each upgrade packet received without error that found memory has queued exactly one acknowledgement frame; until a write on its connection fails for good, what TCP has been handed is a prefix of these frames one after the other, and all of it once the queue is empty. |
| `Server.AnswersAreReplies` | firmware/Safe_Secure_Firmware_Update/src/network/server/server.c:276-290 | Those acknowledgements are the replies of the upgrade session, packet for packet over all connections. |
| `Server.AnswersGrow` | firmware/Safe_Secure_Firmware_Update/src/network/server/server.c:255-291 | A packet adds one answer, the session's, if and only if it comes outside the pool check, the eight bytes of memory at its start are the header, and a chained one could be copied; nothing else adds any. |
| `Server.AcksNeverStall` | firmware/Safe_Secure_Firmware_Update/src/network/server/server.c:102-202 | In the whole application too, with room in the send buffer, an acknowledgement that is queued is on its way, and the queue is empty if and only if all of it has been acknowledged. |
| `Server.ReceptionStep` | firmware/Safe_Secure_Firmware_Update/src/network/server/server.c:238-371 | One reception does to pool, session and queue what Application.ServerRecv does, by the eight bytes of memory at its start; no other connection is touched. |
| `Server.OtherSteps` | firmware/Safe_Secure_Firmware_Update/src/eth_app.c:144-151 | A poll moves the timer of the session alone, or restarts everything on the flash the switch leaves; pool events and TCP's acknowledgements touch their own part alone. |
| `Server.UpgradeProjects` | firmware/Safe_Secure_Firmware_Update/src/network/server/server.c:255-291 | In the whole application the session runs as the upgrade state machine does over the packets that reach it and the polls of the timer. |
| `Server.PoolProjects` | firmware/Safe_Secure_Firmware_Update/src/eth_app.c:144-151 | The pool runs as the gateway does over the receptions and its own steps since the last restart. |
| `Server.QueueProjects` | firmware/Safe_Secure_Firmware_Update/src/network/server/server.c:131-202 | The queue of each connection runs as the send queue does over its acknowledgement frames and TCP's acknowledgements since the last restart. |
| `Server.PartsKeepTheirPromises` | firmware/Safe_Secure_Firmware_Update/src/eth_app.c:144-151 | So in every run of the whole: accepted frames are in the spare bank whatever failed, the gateway's invariant holds, and each connection's chunks go out in order. |
| `Server.Application.ServerRecv` | firmware/Safe_Secure_Firmware_Update/src/network/server/server.c:238-371 | In place, over the session's, the pool's and the connection's own objects: one call of the receive callback does to all three what is specified, on every branch. |
| `PioHandler.EndsExactlyWhenCovered` | firmware/Safe_Secure_Firmware_Update/src/ASF/sam/drivers/pio/pio_handler.c:99-110 | The scan of pio_handler_process ends within the registered sources if and only if every pending bit belongs to a registered source of that controller. |
| `PioHandler.CallsAreFirstMatches` | firmware/Safe_Secure_Firmware_Update/src/ASF/sam/drivers/pio/pio_handler.c:99-110 | The sources called, once each and in order, are exactly those that are the first registered match of some pending bit. |
| `PioHandler.Registry.Process` | firmware/Safe_Secure_Firmware_Update/src/ASF/sam/drivers/pio/pio_handler.c:86-111 | In place: under coverage the loop ends and calls those sources. |
| `PioHandler.Registry.Set` | firmware/Safe_Secure_Firmware_Update/src/ASF/sam/drivers/pio/pio_handler.c:136-156 | In place: the source is appended, or 1 is returned and nothing changes when seven are registered. |

## Left out

- FlashService.Translate: addresses outside the two banks (and the region above) are not modelled, because the service gives them no meaning.
- FlashService.EraseExact: the address one past a bank is not modelled; it names no page.
- FlashService.WriteExact: a write across the end of a bank is not modelled; the source excludes it.
- FlashLocks.LockedCountIsSize: words of the lock status past the last region are taken to read as zero.
- NorFlash: a locked region refuses programming only as a failure of the command script; the model does not link the two.
- SendQueue.QueueInOrder: after a tcp_write that fails for good the run of that connection has ended; the source then frees the list and closes the connection.
- UartGateway.NothingLost: connections that are closed while chunks of theirs wait are not modelled.
- Server.AcksReachTcpInOrder: data received with an error is not handled by the source and is no event of the model; nor are the opening and closing of connections, so a connection is known by its address and port since the last restart.
- UpgradeDriver.Updater.DataDecrypt: what a failing decryption leaves in the buffer is not modelled, because it is never looked at.
- The internals of AES-GCM and of lwIP, DHCP, UDP discovery and the callbacks of the timers.
- The size of the buffer a chain of pbufs is copied into.
- Linked lists are sequences, so aliasing between list nodes and the allocator itself are not captured.
- Busy waits on ready flags, erasing of whole banks and sectors, unique identifier, user signature, descriptor, wait-state adaptation.
- Pin capture and pin configuration, LEDs, debug output, board start-up, the Android host.
