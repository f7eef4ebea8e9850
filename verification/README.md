# Proofs about eMule's file, client and protocol logic

This project models the parts of eMule (directory `srchybrid`) and of its server probe script
(`scripts/probe_ed2k_servers.py`) in which many steps have to fit together, and proves what they
keep. Classes stand for the objects the program updates in place; each of their methods is proved
against a function on values, and the results about whole runs are lemmas about those functions.

`Wrappers` holds what all parts share.

* **The hash store `known2_64.met`** (`Bytes`, `ByteFile`, `Known2Records`, `Known2Pass`,
  `Known2Sync`, `Known2Run`). The file is a byte sequence with one cursor. The scan that truncates a
  damaged file, the single pass that drops, moves and re-marks records inside the file while it
  indexes them, and the conversion from 16-bit to 32-bit counts are carried out with read, seek,
  write and set-length on that file. The pass refines "filter, then zero the hash of every record
  whose hash comes again"; the index is exactly hash to position of the resulting file.
* **Clients** (`ClientMachine`, `BuddyProofs`, `ConnectingProofs`, `ClientRuns`, `ClientProgress`,
  `ClientList`).
  The Kad list with the buddy machine and the list of connection attempts, with the network as
  environment: the outcome of every connection attempt, acknowledgement and time-out is a parameter.
  A state also records whether one of the four `ASSERT`s on these lists and states
  (`srchybrid/ClientList.cpp:549`, 869, 873 and 885) would have fired, and whether a deleted client
  was touched.
* **Secure identification** (`Credits`, `SecIdent`, `SecIdentProofs`, `SecIdentPair`): one client
  against an arbitrary peer, and two honest clients over two first-in first-out channels, both over
  any number of connections on the same credit records, with symbolic signatures.
* **Time-window lists** (`TimedLists`): ban list and request lists against their full history.
* **Progress bar spans** (`BarShader`): the map of change points against the function from byte to
  colour.
* **Stream codecs** (`BitOps`, `Rc4`, `ServerDatagram`, `PacketStream`, `Crc32`, `AceHeader`).
* **ZIP recovery** (`ZipRecords`, `ZipDirectory`, `ZipRecover`, `ZipArchive`, `ZipIntact`): directory
  writer and reader, copying of local entries on both recovery paths, the recovered file as a whole,
  and what an intact archive is recovered to.
* **Socket slots** (`SocketSlots`): the growing slot array of the socket helper window.

## What does not hold

Some promises fail in the code as it is. The model keeps the code; the exact condition is proved.

* `RequestTCP` appends to the Kad list without looking whether the client is already in it
  (`srchybrid/ClientList.cpp:688`), although a client that left its Kad state may still be listed, and
  a deleted client can be touched then. `ClientRuns.CanBreakIffListBad` says from which states, and
  `ClientRuns.StepEndangers` that a TCP request for a listed idle client, and no other event, leads
  there. `ClientRuns.SecondRequestBreaks` gives six events that end in the touch itself.
* The comment at the buddy loop expects the loop to notice a lost buddy. When the buddy leaves the
  Kad list while another client is in state `KS_CONNECTED_BUDDY`, the status stays Connected without
  a buddy: `ClientRuns.ConnectedWithoutBuddyStays`, an if-and-only-if. `ClientRuns.LostBuddyHappens`
  is a run of six events that ends so: two clients ask before there is a buddy, both connect, and the
  one that is taken goes.
* The probe script drops its buffer at a frame of bad size, so what it delivers then depends on where
  the stream was cut: `PacketStream.CleanIffCutIndependent` says for which streams it does not, on
  plain and obfuscated connections and with any bytes left over from before.
* The truncation position in the hash store is kept in 32 bits: `Known2Sync.CutBackKeepsGoodRecords`
  says that the good records survive damage exactly if they end below 4 GiB, and
  `Known2Sync.BigRecordIsLost` names a file that loses one.
* An archive that ZIP recovery wrote is never recognised by its own shortcut for finding the end
  record, because of the comment it adds; below 1046 bytes the directory cannot be found at all:
  `ZipDirectory.WrittenDirectoryNeedsScan`.
* The comment beside `MAX_SOCKETS` (`srchybrid/AsyncSocketEx.h:86`) gives another number than the
  macro computes; the model has the macro's 0xBAFC.

## Model

| member | source | states |
|---|---|---|
| `Known2Records.ParseOfEncodeAll` | srchybrid/AICHSyncThread.cpp:79-89 | records written one after another are read back as the same records, whatever follows |
| `Known2Records.EncodeAllOfParse` | srchybrid/AICHSyncThread.cpp:79-89 | what is read, written again, is a prefix of the input behind which no whole record follows |
| `Known2Records.ParseIsLongest` | srchybrid/AICHSyncThread.cpp:79-102 | no longer list of whole records is a prefix of the input |
| `Known2Sync.StoredHashes.AddStoredAICHHash` | srchybrid/SHAHashSet.cpp:1045-1059 | stores the position of a hash and returns the one stored before, or zero; a position that is not later than the stored one is ignored |
| `Known2Sync.ReadRecords` | srchybrid/AICHSyncThread.cpp:72-109 | the scan succeeds exactly on a well-formed file and then lists every hash with its position; otherwise it has the end of the last good record, cut to 32 bits |
| `Known2Sync.ScanFile` | srchybrid/AICHSyncThread.cpp:71-110 | a well-formed file is unchanged, an empty one gets its version byte, a damaged one is cut back |
| `Known2Sync.CutBackKeepsGoodRecords` | srchybrid/AICHSyncThread.cpp:87-104 | the cut file is the version byte and the longest well-formed prefix of records, and scans again to the end, if and only if that prefix ends below 4 GiB |
| `Known2Sync.BigRecordIsLost` | srchybrid/AICHSyncThread.cpp:87-104 | a damaged file with one good record of 4 GiB is cut to something else |
| `Known2Sync.FileOfScans` | srchybrid/AICHSyncThread.cpp:72-89 | every file of whole records scans without error to exactly those records |
| `Known2Sync.KeptInPlace` | srchybrid/AICHSyncThread.cpp:198-202 | while nothing was dropped, stepping over a record keeps it where it is |
| `Known2Sync.KeptMoved` | srchybrid/AICHSyncThread.cpp:203-217 | a record moved to the write position ends at or before the read position; everything unread is untouched |
| `Known2Sync.ClearedInPlace` | srchybrid/AICHSyncThread.cpp:218-223 | zeroing an earlier hash changes that record only, behind the write position |
| `Known2Sync.MoveRecord` | srchybrid/AICHSyncThread.cpp:205-216 | reads the body, writes hash, count and body at the write position and returns to the read position |
| `Known2Sync.KeepRecord` | srchybrid/AICHSyncThread.cpp:198-223 | keeping one record, in place or moved, with indexing and marking of an earlier duplicate, preserves the layout of the pass |
| `Known2Sync.PassRecord` | srchybrid/AICHSyncThread.cpp:181-224 | one round of the pass drops the record exactly if a purge test says so, else keeps it; file and index stay those of the records kept so far |
| `Known2Sync.PurgeNext` | srchybrid/AICHSyncThread.cpp:181-224 | the same round with the three counters |
| `Known2Sync.PurgeFile` | srchybrid/AICHSyncThread.cpp:164-228 | the final file is the version byte and exactly the kept records, in order and byte for byte except for the zeroed hashes of earlier duplicates; the index, both purge counts, the duplicate count and the bytes saved are theirs |
| `Known2Pass.MarkedAt` | srchybrid/AICHSyncThread.cpp:218-223 | a kept record loses its hash exactly if the same hash is kept again later |
| `Known2Pass.IndexIsLast` | srchybrid/AICHSyncThread.cpp:200-213 | the index maps every kept hash to the place of its last record |
| `Known2Pass.MarkedDistinct` | srchybrid/AICHSyncThread.cpp:198-223 | after the pass two records share a hash only if it is zero |
| `Known2Pass.IndexAgreesWithFile` | srchybrid/AICHSyncThread.cpp:198-223 | a hash is indexed at a position if and only if it is not zero and the final file has the record carrying it there |
| `Known2Pass.IndexedBytes` | srchybrid/AICHSyncThread.cpp:198-223 | at every indexed position the bytes of the final file are the hash itself |
| `Known2Pass.LastOnlyDistinct` | srchybrid/AICHSyncThread.cpp:188-226 | keeping the last record of every hash keeps every hash, once |
| `Known2Pass.PassesSettle` | srchybrid/AICHSyncThread.cpp:188-226 | two passes leave the last kept record of every hash; a third changes nothing; no kept hash is lost |
| `Known2Run.ConvertKnown2ToKnown264` | srchybrid/AICHSyncThread.cpp:338-372 | the new file holds the old file's records with wide counts; success exactly if the old file was whole records to its end |
| `Known2Run.ConversionKeepsRecords` | srchybrid/AICHSyncThread.cpp:338-352 | the converted file scans to its end and its records are the old file's longest well-formed prefix |
| `Known2Run.CollectUsed` | srchybrid/AICHSyncThread.cpp:118-160 | the used hashes and the files still to be hashed, in order of the shared files |
| `Known2Run.FindHash` | srchybrid/AICHSyncThread.cpp:125-128 | the backward search finds a hash exactly if it is stored |
| `Known2Run.IndexAll` | srchybrid/AICHSyncThread.cpp:243-247 | without a purge the index is that of the records as they are |
| `Known2Run.Run` | srchybrid/AICHSyncThread.cpp:48-247 | the whole thread: a damaged file is cut back and nothing indexed; a good one ends as its final records with their index, and the files to hash are those without a stored hash |
| `Known2Run.UsedIffShared` | srchybrid/AICHSyncThread.cpp:120-133 | a hash counts as used if and only if a complete shared file has it and it is stored |
| `Known2Run.KeptHashes` | srchybrid/AICHSyncThread.cpp:188-196 | a hash survives the purge if and only if it was there and no purge test names it |
| `Known2Run.KeptAreWanted` | srchybrid/AICHSyncThread.cpp:188-196 | the pass keeps exactly the records, in order, whose hash is not zero and which a complete shared file has or, with downloaded files remembered, a known file that was seen within 31 days; counted as old are those that fail the latter |
| `Known2Run.CollectedAre` | srchybrid/AICHSyncThread.cpp:118-160 | as many hashes count as used as there are complete shared files in the store; the other complete ones are to be hashed |
| `Known2Run.WhatARunKeeps` | srchybrid/AICHSyncThread.cpp:112-247 | a run cleans up exactly if the settings allow it and the number of stored complete shared files is not that of the records; then the wanted hashes, and no others, stay indexed, and their records are what is left |
| `Known2Run.RecordsOnDisk` | srchybrid/AICHSyncThread.cpp:79-89 | every record of a written file stands at its offset: 20 bytes of hash, a four-byte count, lowest byte first, and the hashes, the first record behind the version byte 2 |
| `Known2Run.SharedFilesStayIndexed` | srchybrid/AICHSyncThread.cpp:164-247 | a shared file's stored hash stays indexed, at bytes that are that hash, if and only if no clean-up runs or the hash is neither zero nor, with downloaded files remembered, that of a file which is unknown or was last seen 31 days ago or more |
| `Known2Run.SeenAt` | srchybrid/SharedFileList.cpp:723 | sharing files at a time sets the last-seen time of exactly their known files |
| `Known2Run.JustSharedStaysIndexed` | srchybrid/KnownFileList.cpp:416-421 | in a run less than 31 days after its files were shared, every known shared file whose hash set is stored is indexed afterwards, unless a clean-up ran and its hash is zero |
| `Known2Run.RunsSettle` | srchybrid/AICHSyncThread.cpp:112-247 | with the same shared files, settings, known files and clock a third run changes nothing, although each run finds the used hashes and decides on the purge anew |
| `Known2Run.OneRunIsEnough` | srchybrid/AICHSyncThread.cpp:112-247 | the second run changes nothing if and only if one of the two did not purge or no kept hash occurred twice |
| `BarShader.FirstKeyFrom` | srchybrid/BarShader.cpp:119-138 | the first change point at or behind a position, or none |
| `BarShader.CBarShader.constructor` | srchybrid/BarShader.cpp:31-42 | one span of colour 0 from byte 0 and file size 1 |
| `BarShader.CBarShader.SetFileSize` | srchybrid/BarShader.cpp:88-95 | a new file size leaves the spans as they are |
| `BarShader.CBarShader.Fill` | srchybrid/BarShader.cpp:145-152 | the whole map is one colour from byte 0 and the terminator at the file size |
| `BarShader.CBarShader.FillRange` | srchybrid/BarShader.cpp:111-143 | the map after filling one range: clamped to the file size, spans inside removed, no new change point where the span to the left has the colour already |
| `BarShader.FillStepColors` | srchybrid/BarShader.cpp:111-143 | after a fill every byte of the range below the file size has the new colour, every other byte the colour it had |
| `BarShader.FillStepKeys` | srchybrid/BarShader.cpp:111-143 | a fill adds at most two change points, at the ends of its range or at the file size |
| `BarShader.FillStepTerminated` | srchybrid/BarShader.cpp:111-143 | byte 0 stays a change point, and the terminator at the file size keeps colour 0 |
| `BarShader.SameColorMakesNoKey` | srchybrid/BarShader.cpp:137-142 | no change point is made where the span to the left has the colour already |
| `BarShader.LastWriterWins` | srchybrid/BarShader.cpp:111-152 | after Fill and any fills every byte shows the colour of the last range that covers it, else the background; the map stays terminated and grows by at most two keys a call |
| `Rc4.RC4.constructor` | scripts/probe_ed2k_servers.py:137-146 | key setup gives the state of the key schedule, with 1024 key bytes dropped when asked |
| `Rc4.RC4.MixIn` | scripts/probe_ed2k_servers.py:139-142 | the key loop computes the rounds of the key schedule in place |
| `Rc4.KeyRounds` | scripts/probe_ed2k_servers.py:138-144 | the state array stays a permutation of 0..255 through key setup |
| `Rc4.Step` | scripts/probe_ed2k_servers.py:150-155 | a round keeps the permutation |
| `Rc4.RC4.Encrypt` | scripts/probe_ed2k_servers.py:148-156 | the output of crypt, and the state behind it |
| `Rc4.RC4.SkipBytes` | scripts/probe_ed2k_servers.py:158-163 | skip of n leaves the state that crypt of n bytes leaves |
| `Rc4.CryptTwice` | scripts/probe_ed2k_servers.py:148-156 | crypt from the same state undoes itself |
| `Rc4.CryptConcat` | scripts/probe_ed2k_servers.py:148-156 | crypt of two pieces in turn is crypt of their concatenation |
| `Rc4.SkipSkip` | scripts/probe_ed2k_servers.py:158-163 | two skips are one skip of the sum |
| `Rc4.KeyStreamStarts` | scripts/probe_ed2k_servers.py:148-156 | from the identity the key stream begins 2, 5, 7 |
| `Rc4.KeySetupBegins` | scripts/probe_ed2k_servers.py:138-142 | the first rounds of key setup for every two-byte key |
| `Rc4.DiscardSkips` | scripts/probe_ed2k_servers.py:145-146 | with the discard the cipher starts where 1024 enciphered bytes have led |
| `ServerDatagram.DecryptServerDatagram` | scripts/probe_ed2k_servers.py:171-189 | decodes a datagram, or gives nothing for one that is too short, not obfuscated, of wrong magic or empty |
| `ServerDatagram.EncryptServerDatagram` | scripts/probe_ed2k_servers.py:192-201 | the datagram the script sends: marker, key part, encrypted magic, zero padding and payload |
| `ServerDatagram.DecodeOfDatagram` | scripts/probe_ed2k_servers.py:171-201 | decoding undoes encoding for every padding length and payload; an empty payload decodes to nothing |
| `ServerDatagram.DecodesIffSent` | scripts/probe_ed2k_servers.py:171-189 | an obfuscated datagram decodes to a plain text if and only if it is what a sender with that key makes of it with some padding, and the text is not empty |
| `ServerDatagram.PlainOrShort` | scripts/probe_ed2k_servers.py:173-176 | a plain packet is returned as it is; short ones and those without a base key give nothing |
| `ServerDatagram.KeyDataLayout` | scripts/probe_ed2k_servers.py:166-168 | the seven bytes that are hashed |
| `ServerDatagram.DatagramLayout` | scripts/probe_ed2k_servers.py:192-201 | what stands where in a datagram, and what its enciphered part deciphers to |
| `PacketStream.TcpReceiver.OnChunk` | scripts/probe_ed2k_servers.py:573-601 | one received chunk: decrypted, appended to the carry-over, framed |
| `PacketStream.TcpReceiver.FrameLoop` | scripts/probe_ed2k_servers.py:582-601 | takes every whole frame from the buffer, as FramesOfWire and BadLengthBehind describe them; drops it at a bad size |
| `PacketStream.FramesOfWire` | scripts/probe_ed2k_servers.py:582-601 | frames of 1 to 2,000,000 bytes sent one behind the other, with the next one begun, are received as those frames: opcode and body, inflated or failed for a packed one, and what was begun is kept |
| `PacketStream.BadLengthBehind` | scripts/probe_ed2k_servers.py:582-588 | a length field of 0 or above 2,000,000 behind sent frames is reported with its number, and all that follows is dropped |
| `PacketStream.FramesConcat` | scripts/probe_ed2k_servers.py:582-601 | framing a stream in two parts with the carry-over between them is framing it whole |
| `PacketStream.WellSizedIsClean` | scripts/probe_ed2k_servers.py:584-588 | streams of frames of 1 to 2,000,000 bytes never meet a bad size |
| `PacketStream.WellSizedIsSent` | scripts/probe_ed2k_servers.py:582-591 | well-sized streams are exactly sent frames with an unfinished one behind them |
| `PacketStream.CutsDoNotMatter` | scripts/probe_ed2k_servers.py:570-601 | packets, leftover and cipher state are the same for every way of cutting the stream into chunks |
| `PacketStream.SentIsReceived` | scripts/probe_ed2k_servers.py:570-601 | on an obfuscated connection sent frames are received as they are however the stream is cut, and both ciphers stay in step |
| `PacketStream.FramesLeaveWaiting` | scripts/probe_ed2k_servers.py:582-591 | framing leaves a buffer from whose head no frame, good or bad, can be taken |
| `PacketStream.BadCutDiffers` | scripts/probe_ed2k_servers.py:577-588 | with any cipher state and leftover, a stream that meets a bad size with bytes behind it gives another result when cut behind that header; after a framing both pieces have bytes |
| `PacketStream.CleanIffCutIndependent` | scripts/probe_ed2k_servers.py:570-601 | for every receiver, plain or obfuscated and with any leftover: cutting makes no difference if and only if nothing arrives or no bad size with bytes behind it is met |
| `Crc32.MakeCrcTable` | srchybrid/ArchiveRecovery.cpp:1033-1042 | entry i is eight steps of the reflected division of i by 0xEDB88320 |
| `Crc32.GetCrc` | srchybrid/ArchiveRecovery.cpp:1044-1051 | the table loop computes the bit-by-bit CRC for every start value and byte string |
| `Crc32.TableStep` | srchybrid/ArchiveRecovery.cpp:1049 | one table look-up is the eight bit steps of one byte |
| `Crc32.CrcConcat` | srchybrid/ArchiveRecovery.cpp:1044-1051 | the CRC over consecutive pieces is the CRC over their concatenation |
| `AceHeader.CheckAceHeader` | srchybrid/ArchiveRecovery.cpp:1063-1106 | for a file that reaches to the end of its header, the stored CRC is compared with that of the header's bytes in one piece, whose end is given by AVSIZE, the comment's size and HEAD_SIZE |
| `AceHeader.AddComment` | srchybrid/ArchiveRecovery.cpp:1087-1096 | the comment's size and bytes are read and covered if and only if the header is longer than what came before |
| `AceHeader.AddPiece` | srchybrid/ArchiveRecovery.cpp:1081-1104 | one more piece read in full extends the CRC to the bytes up to the cursor |
| `AceHeader.WrittenHeaderIsMeasured` | srchybrid/ArchiveRecovery.cpp:1063-1104 | a header written with any AV data, comment and rest is recognised, and the bytes its CRC covers are exactly those behind HEAD_SIZE |
| `AceHeader.HeaderWithoutComment` | srchybrid/ArchiveRecovery.cpp:1063-1104 | likewise one that ends with its AV data |
| `Crc32.CrcInjective` | srchybrid/ArchiveRecovery.cpp:1044-1051 | different start values never meet over the same bytes |
| `Crc32.BurstDetected` | srchybrid/ArchiveRecovery.cpp:1044-1051 | changing at most four consecutive bytes always changes the CRC |
| `Crc32.KnownEntries` | srchybrid/ArchiveRecovery.cpp:1033-1042 | entries 0x80 and 4 of the table are 0xEDB88320 and 0x076DC419 |
| `Crc32.OneByte` | srchybrid/ArchiveRecovery.cpp:1044-1051 | a byte in a zero register leaves its own table entry |
| `ZipRecords.GetCommonOf` | srchybrid/ArchiveRecovery.cpp:298-307 | the ten fields shared by local header and directory entry are read back as written |
| `ZipRecords.GetEntryOf` | srchybrid/ArchiveRecovery.cpp:296-317 | one written entry is read back with the disk number cleared, up to its last byte |
| `ZipRecords.GetEntryAt` | srchybrid/ArchiveRecovery.cpp:377-407 | the reader takes every field of an entry from its offset of section 4.3.12 of the APPNOTE |
| `ZipRecords.PutEntryAt` | srchybrid/ArchiveRecovery.cpp:296-317 | the writer puts every field at that offset, disk number 0 |
| `ZipRecords.ParseOfPutEntries` | srchybrid/ArchiveRecovery.cpp:293-410 | written entries are read back in order whatever follows them |
| `ZipRecords.PutEntriesOfParse` | srchybrid/ArchiveRecovery.cpp:293-410 | a directory on disk 0 that is read and written again is byte for byte the same |
| `ZipRecords.EndRecordShape` | srchybrid/ArchiveRecovery.cpp:328-337 | the end record has its magic, both counts, size and offset at the places of section 4.3.16 of the APPNOTE |
| `ZipRecords.StoredNumbers` | srchybrid/ArchiveRecovery.cpp:287-337 | offset, size and count stored in the end record are the real ones exactly as far as their fields reach |
| `ZipRecords.DirectoryReadsBack` | srchybrid/ArchiveRecovery.cpp:287-410 | from the directory's start the reader gets exactly the entries written, disk numbers cleared, and stops at the end record |
| `ZipRecords.DirectoryIsInjective` | srchybrid/ArchiveRecovery.cpp:287-337 | equal directory bytes hold equal entries |
| `ZipDirectory.WriteDirectory` | srchybrid/ArchiveRecovery.cpp:287-340 | appends entries and end record, or nothing when there are no entries |
| `ZipDirectory.ReadEntries` | srchybrid/ArchiveRecovery.cpp:375-410 | on any bytes: all whole entries, and one more exactly if a truncated entry's magic follows them |
| `ZipDirectory.IsFilled` | srchybrid/ArchiveRecovery.cpp:693-704 | true exactly if an area reaches the end and no area up to it starts too late |
| `ZipDirectory.FilledWhenSorted` | srchybrid/ArchiveRecovery.cpp:693-704 | in a sorted list this is: some one area spans the range |
| `ZipDirectory.ReadZipCentralDirectory` | srchybrid/ArchiveRecovery.cpp:354-419 | succeeds exactly if an end record is found and its directory is filled, and then returns what the entry loop reads there |
| `ZipDirectory.WrittenDirectoryNeedsScan` | srchybrid/ArchiveRecovery.cpp:357-366 | behind a written directory the end record is found by the scan only, and not at all below 1046 bytes |
| `ZipDirectory.WrittenDirectoryIsReadBack` | srchybrid/ArchiveRecovery.cpp:368-410 | with the archive below 4 GiB the reader that found the end record returns exactly the entries written |
| `ZipRecover.FieldsAt` | srchybrid/ArchiveRecovery.cpp:428-443 | the fields of a local header lie at their offsets of section 4.3.7 of the APPNOTE |
| `ZipRecover.CopyData` | srchybrid/ArchiveRecovery.cpp:489-498 | the chunk loop copies the data as far as the input reaches |
| `ZipRecover.ReadHead` | srchybrid/ArchiveRecovery.cpp:423-474 | accepts an entry exactly under the code's conditions, 32-bit sums included, and leaves the cursor where each rejection leaves it |
| `ZipRecover.ProcessZipEntry` | srchybrid/ArchiveRecovery.cpp:421-549 | an accepted entry is appended to the output and listed with the offset where it went; a rejected one changes neither |
| `ZipRecover.RecoverOne` | srchybrid/ArchiveRecovery.cpp:238-250 | an entry of the directory is moved to the output position, or to be deleted if it is not filled or not accepted |
| `ZipRecover.RecoverByDirectory` | srchybrid/ArchiveRecovery.cpp:237-258 | the list ends as the surviving entries in order, each at the start of its copy; the output is the copies |
| `ZipRecover.ScanNext` | srchybrid/ArchiveRecovery.cpp:277-279 | one round of the loop goes on exactly if the search stops at a marker within the area and an entry is accepted there |
| `ZipRecover.ScanArea` | srchybrid/ArchiveRecovery.cpp:272-279 | for any scanner that never goes back, every entry listed is where the search from the end of the one before stopped, and the loop ends only when that search finds nothing, stops behind the area or at a place that is not accepted |
| `ZipRecover.RecoverByScan` | srchybrid/ArchiveRecovery.cpp:260-280 | the entries are those found in the areas in turn, an area being passed over only if the cursor is behind it; the output is their copies from ascending places, each ending at or before the next begins, and the list is made from them |
| `ZipArchive.RelocatedPoints` | srchybrid/ArchiveRecovery.cpp:243-246 | on the directory path every entry carries the start of its local entry |
| `ZipArchive.RelocatedKeeps` | srchybrid/ArchiveRecovery.cpp:244-257 | relocation changes nothing but the offset |
| `ZipArchive.MadePoints` | srchybrid/ArchiveRecovery.cpp:426-428 | on the scan path too |
| `ZipArchive.MadeMatchesHeader` | srchybrid/ArchiveRecovery.cpp:503-533 | the scan path's entry has name, sizes, CRC and all other fields of its local header, and the fixed attributes and comment |
| `ZipArchive.StartsIncrease` | srchybrid/ArchiveRecovery.cpp:482-499 | every local entry starts at least one header behind the one before |
| `ZipArchive.LocalAtStart` | srchybrid/ArchiveRecovery.cpp:482-499 | the bytes of local entry i stand at its start |
| `ZipArchive.OffsetsPointAtHeaders` | srchybrid/ArchiveRecovery.cpp:237-280 | below 4 GiB every offset is the place of a local header with its magic and name, and offsets strictly increase |
| `ZipArchive.RecoverZip` | srchybrid/ArchiveRecovery.cpp:209-341 | the whole recovery: which path is taken, what is copied, the output as local entries plus directory, and every directory entry carrying the start of a local entry with a good header |
| `ZipArchive.ReadBackLeadsToHeaders` | srchybrid/ArchiveRecovery.cpp:237-410 | reading the recovered file's directory gives entries each of which leads to the header and name it was written for |
| `ZipIntact.HeaderNumbers` | srchybrid/ArchiveRecovery.cpp:428-457 | the numbers that decide on a header, and the decision, by the bytes at their offsets of section 4.3.7 of the APPNOTE |
| `ZipIntact.AcceptedByBytes` | srchybrid/ArchiveRecovery.cpp:423-474 | an entry is accepted if and only if a header with its marker and non-zero CRC and lengths stands there, its name lies in the file, and the lengths added up in 32 bits fit what is available |
| `ZipIntact.SurvivesByBytes` | srchybrid/ArchiveRecovery.cpp:237-250 | a directory entry survives if and only if its range, of its own lengths, is filled and such an entry of at most that size stands at its offset |
| `ZipIntact.CursorByBytes` | srchybrid/ArchiveRecovery.cpp:423-474 | where every outcome leaves the cursor |
| `ZipIntact.IntactArchiveByScan` | srchybrid/ArchiveRecovery.cpp:260-280 | scanning a filled file of whole entries with a scanner that sees the marker it stands on recovers every one of them, in order and byte for byte |
| `ZipIntact.IntactArchiveByDirectory` | srchybrid/ArchiveRecovery.cpp:237-258 | by a directory that tells the truth about them no entry is deleted and every copy is the entry |
| `ZipIntact.EndRecordByBytes` | srchybrid/ArchiveRecovery.cpp:359-368 | the end record is looked for 22 bytes before the end and else by the scan of the last 1046 |
| `ZipIntact.StartFieldByBytes` | srchybrid/ArchiveRecovery.cpp:372-373 | the directory starts where bytes 16 to 19 of the end record say |
| `SocketSlots.HelperWindow.constructor` | srchybrid/AsyncSocketEx.cpp:84-92 | 512 empty slots |
| `SocketSlots.HelperWindow.Resize` | srchybrid/AsyncSocketEx.cpp:150-162 | growth keeps every slot at its index |
| `SocketSlots.HelperWindow.FindFree` | srchybrid/AsyncSocketEx.cpp:164-177 | the round-robin search finds a slot exactly if one is free, and the first free one from the cursor |
| `SocketSlots.HelperWindow.AddSocket` | srchybrid/AsyncSocketEx.cpp:130-178 | succeeds for every new socket while fewer than MAX_SOCKETS are attached; every attached socket keeps its slot, the counter stays the number of used slots |
| `SocketSlots.HelperWindow.AttachAt` | srchybrid/AsyncSocketEx.cpp:167-172 | the new socket sits in its slot, the cursor moves behind it, every other attached socket keeps its slot |
| `SocketSlots.HelperWindow.RemoveSocket` | srchybrid/AsyncSocketEx.cpp:181-201 | frees exactly the socket's own slot; every other attached socket keeps its own |
| `SocketSlots.TurnPassesAll` | srchybrid/AsyncSocketEx.cpp:165-174 | one turn of the cursor passes every slot |
| `SocketSlots.AllTaken` | srchybrid/AsyncSocketEx.cpp:165-177 | a turn that met no free slot means that all are used |
| `SocketSlots.UsedCounts` | srchybrid/AsyncSocketEx.cpp:130-201 | the counter is the number of slots that are not free |
| `SocketSlots.GrowsWhenNearlyFull` | srchybrid/AsyncSocketEx.cpp:139-150 | the table grows by 512 slots, up to the limit, exactly when ten or fewer are free |
| `TimedLists.RequestList.Add` | srchybrid/ClientList.cpp:844-850 | adds an entry and drops only what is older than 180 s; the list still knows all recent requests |
| `TimedLists.RequestList.AllowCallbackRequest` | srchybrid/ClientList.cpp:912-921 | answers as the full log would |
| `TimedLists.RequestList.IsKadFirewallCheckIP` | srchybrid/ClientList.cpp:852-863 | answers as the full log would, despite the early break |
| `TimedLists.NothingRecent` | srchybrid/ClientList.cpp:844-863 | no match in the pruned list means none in the full log |
| `TimedLists.RecentMeans` | srchybrid/ClientList.cpp:844-863 | recent is less than three minutes ago |
| `TimedLists.BanList.AddBannedClient` | srchybrid/ClientList.cpp:330-333 | records a ban |
| `TimedLists.BanList.IsBannedClient` | srchybrid/ClientList.cpp:335-339 | banned exactly if the last event for the address is a ban less than two hours old |
| `TimedLists.BanList.RemoveBannedClient` | srchybrid/ClientList.cpp:341-344 | records an unban |
| `TimedLists.BanList.RemoveAllBannedClients` | srchybrid/ClientList.cpp:346-349 | records the unban of all |
| `TimedLists.BanList.CleanUp` | srchybrid/ClientList.cpp:436-446 | drops the outdated bans, every 20 minutes |
| `TimedLists.CleanedAnswersAlike` | srchybrid/ClientList.cpp:436-446 | the cleanup never changes an answer, now or later |
| `TimedLists.CleanedHolds` | srchybrid/ClientList.cpp:436-446 | after the cleanup the table holds exactly the bans that are not over |
| `TimedLists.BannedMeans` | srchybrid/ClientList.cpp:330-349 | an address is banned if and only if its last ban is less than two hours ago and no pardon of it or of all came after |
| `ClientList.CClientList.RemoveFromKadList` | srchybrid/ClientList.cpp:749-759 | removes the first occurrence, and forgets the buddy if it is the one removed |
| `ClientList.CClientList.AddToKadList` | srchybrid/ClientList.cpp:761-765 | appends a client not yet listed |
| `ClientList.CClientList.AddConnectingClient` | srchybrid/ClientList.cpp:865-875 | appends an attempt, and would fire its ASSERTs for a listed or idle client |
| `ClientList.CClientList.RemoveConnectingClient` | srchybrid/ClientList.cpp:893-902 | removes the first attempt of a client |
| `ClientList.CClientList.DeleteClient` | srchybrid/BaseClient.cpp:262-282 | the destructor takes the client from both lists |
| `ClientList.CClientList.Disconnect` | srchybrid/BaseClient.cpp:1101-1233 | clears Kad and connecting state and the attempt; the caller may delete the client |
| `ClientList.CClientList.ConnectionEstablished` | srchybrid/BaseClient.cpp:1499-1531 | ends the attempt and moves the Kad state on |
| `ClientList.CClientList.StateWhenConnected` | srchybrid/BaseClient.cpp:1518-1531 | the Kad state after a connection, from the one before |
| `ClientList.CClientList.DropDownload` | srchybrid/DownloadClient.cpp:628-633 | leaving the connecting download state ends the attempt |
| `ClientList.CClientList.TryToConnect` | srchybrid/BaseClient.cpp:1238-1478 | an attempt: refused, already connected, connected at once, or entered in the list in one of its ways |
| `ClientList.CClientList.RequestTCP` | srchybrid/ClientList.cpp:662-692 | queues a firewall check for a new or idle client |
| `ClientList.CClientList.RequestBuddy` | srchybrid/ClientList.cpp:694-719 | queues a buddy request for a new or idle client |
| `ClientList.CClientList.IncomingBuddy` | srchybrid/ClientList.cpp:721-747 | takes in an unknown client that wants a buddy |
| `ClientList.CClientList.DoRequestFirewallCheckUDP` | srchybrid/ClientList.cpp:767-784 | queues a UDP firewall check for an unknown client |
| `ClientList.CClientList.VisitKadClient` | srchybrid/ClientList.cpp:479-576 | one round of the Kad loop |
| `ClientList.CClientList.ProcessKadList` | srchybrid/ClientList.cpp:476-576 | the Kad loop over a list that the visits shorten; touching a deleted client ends it |
| `ClientList.CClientList.FinishKad` | srchybrid/ClientList.cpp:578-623 | status after the loop, and the buddy dropped when none is needed |
| `ClientList.CClientList.CleanUpClientList` | srchybrid/ClientList.cpp:786-815 | deletes unused clients |
| `ClientList.CClientList.ProcessConnectingClientsList` | srchybrid/ClientList.cpp:877-891 | times out every attempt of 45 s or more |
| `ClientList.CClientList.Process` | srchybrid/ClientList.cpp:430-634 | a whole tick |
| `BuddyProofs.VisitKeeps` | srchybrid/ClientList.cpp:479-576 | every round of the loop keeps: one connecting buddy at most, none while Disconnected, a buddy only when Connected and listed |
| `BuddyProofs.LoopKeeps` | srchybrid/ClientList.cpp:476-576 | so does the loop; and if its flag ends Disconnected, no client is a connecting buddy |
| `ConnectingProofs.TriedKeeps` | srchybrid/BaseClient.cpp:1238-1478 | every outcome of an attempt keeps connecting list and connecting states in agreement, and no ASSERT of the connecting list fires |
| `ConnectingProofs.DisconnectKeeps` | srchybrid/BaseClient.cpp:1203-1232 | so does a disconnect |
| `ConnectingProofs.EstablishedKeeps` | srchybrid/BaseClient.cpp:1511-1531 | so does an established connection |
| `ConnectingProofs.TimeoutsKeep` | srchybrid/ClientList.cpp:877-891 | so does the time-out loop, after which no attempt is 45 s old |
| `ConnectingProofs.ListedOnceIffConnecting` | srchybrid/ClientList.cpp:865-902 | a client is listed exactly once if it is connecting and not at all otherwise |
| `ClientRuns.ProcessKeeps` | srchybrid/ClientList.cpp:430-634 | a tick keeps all of it, and leaves no attempt aged 45 s or more |
| `ClientRuns.StepKeeps` | srchybrid/ClientList.cpp:430-902 | every event keeps all of it |
| `ClientRuns.EveryRunIsSafe` | srchybrid/ClientList.cpp:476-902 | after every run: none of the ASSERTs at lines 549, 869, 873 and 885 has fired, at most one connecting buddy and none while Disconnected, a buddy is listed with status Connected, every client is in the connecting list once if connecting and else not |
| `ClientRuns.RequestTcpDuplicates` | srchybrid/ClientList.cpp:662-692 | a TCP request leaves the Kad list free of duplicates if and only if it is refused or the client is not listed |
| `ClientRuns.CarefulRunsNeverBreak` | srchybrid/ClientList.cpp:476-784 | runs whose TCP requests are all of that kind keep a Kad list of live clients without duplicates and never touch a deleted one |
| `ClientRuns.CanBreakIffListBad` | srchybrid/ClientList.cpp:476-784 | from a state that no run has broken yet, some run without a further TCP request touches a deleted client if and only if the Kad list has a duplicate or a dead entry |
| `ClientRuns.StepEndangers` | srchybrid/ClientList.cpp:662-692 | from a safe state an event leads to one from which a deleted client can be touched if and only if it is a TCP request that is accepted for a listed client |
| `ClientRuns.SecondRequestBreaks` | srchybrid/ClientList.cpp:662-692 | a run of six events that does: a checked client keeps its entry when its connection is lost, is requested again, refused and deleted |
| `ClientRuns.ConnectedWithoutBuddyStays` | srchybrid/ClientList.cpp:553-590 | with status Connected and no buddy, a tick that comes to its end leaves the status Connected if and only if Kad runs and some listed client is in state KS_CONNECTED_BUDDY, and sets no buddy |
| `ClientRuns.LostBuddyHappens` | srchybrid/ClientList.cpp:553-590 | a run of six events that ends with status Connected, no buddy and a client in that state |
| `ClientProgress.TickVisits` | srchybrid/ClientList.cpp:476-634 | a tick visits every listed client once, finds it as it was, and leaves it as that visit does if it has a Kad state and no attempt of 45 s |
| `ClientProgress.BuddyIsTried` | srchybrid/ClientList.cpp:527-540 | a queued buddy with nobody else in its way is connecting after the next tick, with status Connecting |
| `ClientProgress.AfterConnection` | srchybrid/BaseClient.cpp:1499-1531 | what an established connection makes of every Kad state, everything else staying as it was |
| `ClientProgress.BuddyIsTaken` | srchybrid/ClientList.cpp:553-565 | a buddy that was asked and gets its connection is the buddy after the next tick, with status Connected, wherever it stands in the list and whatever the others are answered |
| `ClientProgress.LateOnesGo` | srchybrid/ClientList.cpp:520-552 | while there is a buddy, everybody else on the way to become one loses its Kad state at the next tick |
| `ClientProgress.TcpCheckGetsThrough` | srchybrid/ClientList.cpp:484-519 | a TCP check is connecting, connected, acknowledged and off the list in that order, whatever happens to all the others |
| `ClientProgress.UdpCheckGetsThrough` | srchybrid/ClientList.cpp:484-519 | a UDP check is connecting, then under way or over, and leaves the list after it ended |
| `ClientProgress.UdpCheckStays` | srchybrid/ClientList.cpp:484-519 | a UDP check under way stays as it is |
| `ClientProgress.IdleOnesLeave` | srchybrid/ClientList.cpp:573-576 | a client without a Kad state is off the list after the next tick |
| `ClientProgress.KadDownEmptiesList` | srchybrid/ClientList.cpp:479-590 | one tick with Kad down leaves an empty list, no buddy and the status Disconnected |
| `ClientProgress.DroppedBuddyLeaves` | srchybrid/ClientList.cpp:592-623 | a buddy that is not needed loses its Kad state in that tick and its role at the next |
| `ClientProgress.NewClientsAreQueued` | srchybrid/ClientList.cpp:662-784 | each of the four requests queues an unknown client in its state |
| `ClientProgress.IdleClientsAreQueued` | srchybrid/ClientList.cpp:662-784 | for an idle known one, two of them do |
| `ClientProgress.AttemptEnds` | srchybrid/BaseClient.cpp:1238-1478 | what each outcome of an attempt makes of the client, its states and the list of attempts |
| `ClientProgress.UnusedAreDeleted` | srchybrid/ClientList.cpp:786-815 | the cleanup deletes exactly the unused clients without a Kad state |
| `Credits.ClientCredits.constructor` | srchybrid/ClientCredits.cpp:293-307 | stored totals and key, with the working key and state set from the stored key |
| `Credits.ClientCredits.GetCurrentIdentState` | srchybrid/ClientCredits.cpp:339-348 | identified counts only for the address it was proved for |
| `Credits.ClientCredits.AddDownloaded` | srchybrid/ClientCredits.cpp:56-70 | adds to the 64-bit total, unless the state forbids credit while crypto is available |
| `Credits.ClientCredits.AddUploaded` | srchybrid/ClientCredits.cpp:72-86 | likewise |
| `Credits.ClientCredits.MarkVerified` | srchybrid/ClientCredits.cpp:309-327 | the first proof stores the working key and resets the totals |
| `Credits.ClientCredits.SetSecureIdent` | srchybrid/ClientCredits.cpp:329-337 | takes a key only while none is stored |
| `Credits.ClientCredits.GetSecureWaitStartTime` | srchybrid/ClientCredits.cpp:564-592 | the wait start for an address |
| `Credits.ClientCredits.SetSecWaitStartTime` | srchybrid/ClientCredits.cpp:594-599 | restarts both wait times for an address |
| `Credits.CreditNeedsProof` | srchybrid/ClientCredits.cpp:56-86 | while crypto is available bytes are credited if and only if the client has no key or is proved for that very address; otherwise always |
| `Credits.StoredKeyIsFixed` | srchybrid/ClientCredits.cpp:309-337 | over every run a stored key never changes and stays the working key |
| `Credits.TotalsAreCreditedBytes` | srchybrid/ClientCredits.cpp:56-96 | while the stored key stays, the totals are the sums of the bytes creditable at their time, modulo 2^64 |
| `Credits.TotalsSinceFirstProof` | srchybrid/ClientCredits.cpp:56-96 | over a run with the first proof, the totals are what that single reset left and every byte credited since, modulo 2^64 |
| `Credits.OnlyFirstProofResets` | srchybrid/ClientCredits.cpp:309-327 | totals fall only by the first proof or by wrapping at 2^64; the stored key changes only by the first proof |
| `Credits.SecureWaitIsFixed` | srchybrid/ClientCredits.cpp:564-592 | no sequence of wait-time requests from any addresses moves a started secure wait time |
| `Credits.WaitAnswers` | srchybrid/ClientCredits.cpp:564-592 | the time a client is told, and what changes, in every case |
| `Credits.ProvedClientKeepsItsWait` | srchybrid/ClientCredits.cpp:564-592 | after any run a client proved at its address is told the secure time it had at the start |
| `Credits.ImpostorStartsOver` | srchybrid/ClientCredits.cpp:564-592 | a client at another address is told the tick of its first request there, as long as it alone asks |
| `Credits.KeyIsTaken` | srchybrid/ClientCredits.cpp:329-337 | a key of at most 80 bytes is taken exactly while none is stored, and has to be proved |
| `Credits.UnprovedKeyEarnsNothing` | srchybrid/ClientCredits.cpp:56-86 | from a received key to its proof no run earns anything while crypto is available |
| `Credits.FailureIsRemembered` | srchybrid/ClientCredits.cpp:508-514 | a failed proof is remembered until a good one or a new key |
| `Credits.ProofCounts` | srchybrid/ClientCredits.cpp:309-348 | a proof counts for its address, makes a bad guy of every other, and no later failure takes it away |
| `SecIdent.UpDownClient.SendPublicKeyPacket` | srchybrid/BaseClient.cpp:1820-1838 | sends our key when it was asked for |
| `SecIdent.UpDownClient.SendSignaturePacket` | srchybrid/BaseClient.cpp:1840-1893 | signs the peer's key and challenge once both are known, in the version the peer supports |
| `SecIdent.UpDownClient.CreateSignature` | srchybrid/ClientCredits.cpp:415-452 | the bytes that are signed |
| `SecIdent.UpDownClient.VerifyIdent` | srchybrid/ClientCredits.cpp:454-515 | with crypto, succeeds exactly for a signature under the working key over our key, our challenge and the address of the kind; without, fails and sets the state to not available |
| `SecIdent.UpDownClient.ProcessPublicKeyPacket` | srchybrid/BaseClient.cpp:1895-1917 | takes in a key and answers a pending request |
| `SecIdent.UpDownClient.ProcessSignaturePacket` | srchybrid/BaseClient.cpp:1919-1975 | verifies at most one signature an address, and only one we asked for |
| `SecIdent.UpDownClient.SendSecIdentStatePacket` | srchybrid/BaseClient.cpp:1977-2006 | draws a challenge and asks for key and signature |
| `SecIdent.UpDownClient.ProcessSecIdentState` | srchybrid/ListenSocket.cpp:1148-1175 | stores the peer's request and challenge, and answers |
| `SecIdentProofs.SignedBytesInjective` | srchybrid/ClientCredits.cpp:415-507 | for keys of one length the signed bytes determine key, challenge, kind and, in version 2, the address |
| `SecIdentProofs.ChallengeWasDrawn` | srchybrid/BaseClient.cpp:1977-2006 | an outstanding challenge is one this side drew |
| `SecIdentProofs.IdentifiedOnlyByProof` | srchybrid/ClientCredits.cpp:454-515 | against any peer, whatever addresses it takes on and however often it connects again over the same credits: Identified only through a signature, under the key now stored, over our key and our challenge at that time, and for the address it came from |
| `SecIdentProofs.OneSignatureAnAddress` | srchybrid/BaseClient.cpp:1941-1946 | once a signature was looked at, no other one from that address changes anything, whatever happens in between |
| `SecIdentProofs.WelcomeSignatureIsJudged` | srchybrid/BaseClient.cpp:1919-1975 | the first signature we asked for under a known key is looked at, and the state says how it went |
| `SecIdentProofs.UnwelcomeSignatureIsIgnored` | srchybrid/BaseClient.cpp:1928-1961 | signatures nobody asked for, without a known key or of a version not announced change nothing |
| `SecIdentProofs.RequestIsAnswered` | srchybrid/ListenSocket.cpp:1148-1160 | a request is answered with the key exactly if it asks for it and with a signature exactly if the peer's key is known |
| `SecIdentProofs.AnswerIsSigned` | srchybrid/BaseClient.cpp:1860-1892 | the answer is signed over the peer's key and challenge and, in version 2, our public address (20) or else the peer's (10) |
| `SecIdentPair.AskKeeps` | srchybrid/BaseClient.cpp:1977-2006 | asking keeps the invariant of the pair |
| `SecIdentPair.MoveKeeps` | srchybrid/BaseClient.cpp:1820-2027 | so does taking in any packet |
| `SecIdentPair.OwedVerifies` | srchybrid/ClientCredits.cpp:415-507 | the bytes one side signs are the bytes the other verifies |
| `SecIdentPair.ArrivingVerifies` | srchybrid/BaseClient.cpp:1919-1975 | a signature next in the channel verifies, whatever was known of the peer before |
| `SecIdentPair.RunKeeps` | srchybrid/BaseClient.cpp:1820-2038 | the invariant holds after every interleaving and every number of connections, each with client objects that are new or kept |
| `SecIdentPair.RunFailsNobody` | srchybrid/BaseClient.cpp:1820-2038 | no interleaving over any connections marks either side as failed that was not so before |
| `SecIdentPair.HonestPeersIdentify` | srchybrid/BaseClient.cpp:1820-2038 | over whole sessions of any connections, between clients that take each other's version and, for version 2, see each other's addresses right, every signature that arrives at either side verifies, neither is marked as failed, and when both have asked in a connection and all is delivered both are identified under the true keys |
| `SecIdentPair.VerifiesIffSeenRight` | srchybrid/ClientCredits.cpp:415-507 | the signature one side owes verifies at the other if and only if it is of version 1 or the two see each other right: a signer with a public ID is seen at that ID, any other sees the verifier at its public ID or else its local address |
| `SecIdentPair.DeliveryLightens` | srchybrid/BaseClient.cpp:1820-2027 | delivery cannot go on for ever |
| `SecIdentPair.IdentificationCompletes` | srchybrid/BaseClient.cpp:1820-2038 | from every reachable state of a session some further steps of its present connection identify both |

## Left out

- Windows, lists, drawing and shading, logging, preferences, threads, locks, sockets and file handles: plumbing without a property of its own; what they deliver is a parameter.
- RSA, MD5 and zlib: signatures are symbolic, digest and inflate are arbitrary functions.
- CRBMap, which holds the spans, is not part of this model: `FindFirstKeyAfter` is taken as "first key at or behind", as its callers use it.
- scanForZipMarker: only as a search that never goes back; it re-reads a window ending in the first byte of the marker again and again, so neither termination nor "first marker" is claimed. Where ZipIntact speaks of a scanner that sees the marker it stands on, that is a hypothesis.
- Completeness of a recovered ZIP entry: the code compares with 26 where the header has 30 bytes, so only offsets, headers and what the input reaches are stated.
- ZipRecover.ProcessZipEntry: only with an output file. The directory listing, and I/O exceptions other than seeking to before the start, are easier members of the same kind.
- `sizeof(ZIP_Entry)` depends on the width of addresses and is a parameter of the ZIP model.
- RAR, ACE beyond its CRC, ISO, SOCKS5 and the login and status parsers of the probe script: few properties that span operations.
- GetScoreRatio: floating point on one state, no property over runs.
- Credits.SecureWaitIsFixed: SetSecWaitStartTime and ClearWaitStartTime move the wait time on purpose and are not events of these runs; ticks start at 2, since 0 means "not started".
- SecIdent.UpDownClient.ProcessPublicKeyPacket: the length byte in the packet is not modelled; a key is a byte string, empty when there is none, and its size limits are the packet's.
- SecIdent.UpDownClient.ProcessSignaturePacket: packet size and length byte are not modelled; a packet carries the signature itself and, for version 2, the kind.
- SecIdent.UpDownClient.SendPublicKeyPacket: the ASSERT on a call in another state is not recorded; the dispatcher does not make one.
- SecIdentPair.HonestPeersIdentify: each side asks once a connection and before it takes in a packet of the exchange, as InfoPacketsReceived does between two clients whose hello carries the eMule version (`srchybrid/ListenSocket.cpp:225` and 286); older clients with separate info packets are outside the pair. So are address changes in the middle of a connection, or of a client object that is kept; IdentifiedOnlyByProof covers those, for one side against any peer.
- Known2Run.Run: shutting down, the debug-only second look and the part-hash upgrade of known files are left out; a failing file system is not modelled, so the only exception is the end of the file.
- Known2Run.RunsSettle: the clock stands still during a run and between the runs compared; a file may become outdated in between.
- AceHeader.CheckAceHeader: what a short read makes of the CRC depends on uninitialised memory and is not stated; that the header area is among the filled ones (`srchybrid/ArchiveRecovery.cpp:1071`) is checked before and not part of this model.
- Known2Run.ConvertKnown2ToKnown264: whether the two files exist is decided by the caller.
- Wrap-around of tick counters, of `end + 1` on 64-bit positions, and of buffer lengths at 4 GiB: numbers are unbounded unless a row says otherwise.
- TimedLists: tracked clients and callback bookkeeping beyond the two request lists.
- ClientList.CClientList.TryToConnect: the reasons for each outcome (limits, filters, proxies, callbacks) are parameters; what each outcome does to the lists and states is modelled. The override for URL sources is not part of this model.
- ClientList.CClientList.Process: buddy pings, Kad searches, ban cleanup and statistics in the same tick do not touch the modelled state; ban cleanup is TimedLists.BanList.CleanUp.
- ClientList.CClientList.DeleteClient: the destructor's ASSERT that the client is not connecting (`srchybrid/BaseClient.cpp:274`) rests on upload, download and chat states and is not among those recorded.
- ClientList.CClientList.VisitKadClient: the ASSERT that an acknowledged client has a connected socket is not recorded; sockets are behind the outcome parameters.
- ClientList.CClientList.DoRequestFirewallCheckUDP: the ASSERT that a new client offers no direct callback is not recorded; connect options are not part of this model.
- ClientRuns.EveryRunIsSafe: ASSERTs on sockets, on download state (`srchybrid/BaseClient.cpp:1123`) and on connect options are not among the four it speaks of.
- The upload and download machines of clients: only what they do to the connecting state.
