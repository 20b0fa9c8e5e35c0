# Verified model of the CNC controller software

A Dafny model of the parts of this repository whose behaviour is decided by code alone, with proofs of what they
promise. `dafny verify dfyconfig.toml` checks the whole of it.

**Firmware update.** `Crc16` is the table CRC of device and PC against polynomial division. `Framing` is the
byte-stuffed frame format with both receivers and transmitters. `Cbc` is the streaming CBC-MAC and CBC
decryption of the device (section 6.2 of NIST SP 800-38A), with the block cipher as a parameter. `Flash` is the
device's flash and its hex-record writer (record types 00, 01, 02 and 04 of the Intel Hexadecimal Object File
Format), and `Records` says what a record does byte by byte; `HostImage` is the PC's virtual flash and the
agreement of the two, `HostRange` the range that the PC reports. `Commands` is the command handler with what
holds over every run of commands, `Effects` what each command does, and `Update` puts frames, records and the
final query together; `Replay` is what a retransmitted frame does. `HexText`, `HostFile`, `Ingest`,
`DecryptedIngest` and `Paths` are the three ways by which the text of a hex file reaches the flash, and when
they leave the same image.

**Option parsing.** `Getopt` is `getopt` with argument permutation against a plain left-to-right scan.
`CommandLine` says how option strings and command lines are written, and that they are read so.

**Tick counter.** `Tick` is the interrupt-safe read of the 48-bit counter, as a state machine whose timer,
interrupt and reader steps interleave freely.

**Network.** `DhcpMessage` and `Dhcp` are the DHCP client (sections 2, 4.1 and 4.4 of RFC 2131, options of RFC
2132); `DhcpSent` is what it sends and when, `DhcpAnswer` what the answers do, `DhcpBind` what it configures.
`Checksum` is the Internet checksum (section 1 of RFC 1071) and `IpHeader` the IP header (section 3.1 of RFC
791). `RxRing` is the receive ring and the memory copy of the ENC28J60. `PortScan` is the random port scan of
netcat.

Code that works in place is modelled by classes and methods over arrays and fields, each tied by its contract to
a specification function; the properties are lemmas about these functions and invariants of the classes.
Hardware (flash, timer, network controller) is modelled by its effect on memory and registers. Bytes are 8-bit
vectors where the code shifts and masks, and numbers below 256 where it adds.

Results where code and expectation differ:

- Permuting argv keeps its meaning exactly unless the last option lacks its argument and non-options remain
  (`Getopt.PermutedMeansTheSame`; `Getopt.MissingArgumentFilled` is a case).
- A frame is delivered by a receiver in step exactly when body and CRC are shorter than its buffer limit, 1000
  on the device and 253 on the PC (`Framing.FrameFits`).
- The PC rounds the end of its image with `max += max % 4`, which reaches a word boundary only from even
  addresses and leaves the application area when the image ends one byte short of its end
  (`HostImage.MaxRounding`, `HostImage.ReportedRange`).
- If the file ends in an end of line, the PC goes on to the record in whatever its uninitialised line buffer
  holds; it reads the file exactly if and only if there is none (`HostFile.HostReadsText`).
  `HostFile.EndLineTwice` is a file read as two records; the last record again changes nothing
  (`Paths.LastRecordAgain`, `Paths.LastRecordAgainOnHost`), and `Paths.PathsAgree` says when any other does not.
- The signature check is reset without its fill count, so bytes of a partly filled block stay in the stream as
  zeros; between commands the count is zero (`Cbc.SignatureCheck.Reset`, `Commands.Settled`).
- A comment says that record type 02 gives bits 4 to 19 of the address; both sides shift by eight, as the model
  does.
- The fragment test ignores the flag for more fragments, so a first fragment passes
  (`IpHeader.FirstFragmentAccepted`).
- A repeated PROGRAM_FLASH frame is harmless if and only if the records before the first that sets the extended
  addresses find the flash already written at the addresses of the end (`Replay.RepeatHarmless`,
  `Replay.RepeatedFrameHarmless`; `Replay.ZerosTwice` is a case where they do not).
- While a lease is renewed and no offer is held, any reply to this client replaces the address to be renewed
  (not the one configured), before its options or its server are looked at, and an offer also the server.
  `Dhcp.RenewalKeepsAddress`, `Dhcp.RenewalKeepsServer` and, by what a message says,
  `Dhcp.RenewalKeepsServerSaid` tell exactly when they stay; `Dhcp.StrayReplyTakesOver` is a case.
- Mask, gateway and lease of any reply to this client count as soon as a discovery was sent, and stay if the
  offer that is taken later does not say them (`DhcpBind.BindsParametersOfRun`; `DhcpBind.StrayMaskConfigured`
  is a case).
- Skipping an option counts its length down to 255, which then stands for the length of an option that is cut
  off. `DhcpMessage.CutOffOfferHeard` is an offer heard for this reason, and `Dhcp.CutOffOfferTakesServer` what
  it does.
- The option reader of the DHCP client takes the byte after a pad option for a length. It sees exactly the
  options of a message if and only if pads come in pairs, but for a last one that leads to nothing behind the
  end (`DhcpMessage.VisitedIfPaired`); `DhcpMessage.PaddedOfferUnheard` is an offer that it does not hear.
- A deadline that was missed by 2^31 ticks looks like a future one (`Dhcp.DeadlineTest`).

## Model

| member | source | states |
|---|---|---|
| `Getopt.MyIndex` | software/netcat/getopt.c:180-192 | finds the first place of a character, or reports that it does not occur |
| `Getopt.SwapBlocks` | software/netcat/getopt.c:230-274 | swaps two adjacent blocks of argv in place, both in their own order, nothing else touched; ends because the part still to be swapped shrinks |
| `Getopt.Scanner.Exchange` | software/netcat/getopt.c:226-280 | the skipped non-options and the options after them change places; first_nonopt and last_nonopt then mark the non-options |
| `Getopt.Scanner.Initialize` | software/netcat/getopt.c:284-316 | the first call starts behind the program name with nothing skipped |
| `Getopt.Scanner.SettleOptions` | software/netcat/getopt.c:392-400 | moving processed options in front of skipped non-options does not change what the rest of the run returns |
| `Getopt.Scanner.SkipNonOptions` | software/netcat/getopt.c:402-408 | skipping non-options does not change what the rest of the run returns |
| `Getopt.Scanner.NextElement` | software/netcat/getopt.c:388-457 | at the end or after "--", optind points at the untouched non-options; otherwise the next option element is opened |
| `Getopt.Scanner.NextShortOption` | software/netcat/getopt.c:600-669 | one option character, with its argument from the same or the next element, or ? or : for a missing one |
| `Getopt.Scanner.Next` | software/netcat/getopt.c:375-670 | one call returns the first option and argument of the reference scan and leaves the scan of the rest |
| `Getopt.Scanner.ParseAll` | software/netcat/getopt.c:375-670 | calling until EOF returns exactly the options of a left-to-right scan, and leaves argv as options first, then all non-options in their order from optind on |
| `Getopt.ExchangeKeepsWhole` | software/netcat/getopt.c:392-400 | the exchange keeps the meaning of the whole run |
| `Getopt.ScanInterleaves` | software/netcat/getopt.c:318-372 | the scan splits argv into taken elements and the rest: an interleaving, so the final argv is a permutation in order |
| `Getopt.RestOfScan` | software/netcat/getopt.c:402-439 | the elements left at optind are non-options, plus everything after "--" |
| `Getopt.ScanContinued` | software/netcat/getopt.c:600-669 | what a scan of more arguments returns, in terms of the scan of the first ones |
| `Getopt.PermutedMeansTheSame` | software/netcat/getopt.c:318-372 | parsing the permuted argv again gives the same options, exactly unless the last option lacks its argument and non-options remain |
| `Getopt.MissingArgumentFilled` | software/netcat/getopt.c:640-666 | x -a, where -a needs an argument, permuted to -a x: the failing case |
| `CommandLine.KindAt` | software/netcat/getopt.c:604-652 | in any option string, the kind of an option is read from the colons behind its first occurrence |
| `CommandLine.KindUnknown` | software/netcat/getopt.c:604-622 | exactly the characters that do not occur, and the colon, are no options |
| `CommandLine.KindDeclared` | software/netcat/getopt.c:604-652 | an option string written from declarations gives every option the kind of its first declaration |
| `CommandLine.LineScanned` | software/netcat/getopt.c:375-670 | a command line written from operands, option elements with and without arguments, and its possible ends is read as it is meant |
| `CommandLine.EveryLine` | software/netcat/getopt.c:375-670 | every argument vector is such a command line |
| `CommandLine.ParseLine` | software/netcat/getopt.c:375-670 | so the option loop sees the options as they are meant and leaves the operands behind them |
| `CommandLine.ArgumentTaken` | software/netcat/getopt.c:639-665 | an option with one colon takes the next element, whatever else is declared |
| `CommandLine.NetcatPort` | software/netcat/netcat.c:1758 | so does -p of netcat |
| `Crc16.CalculateCrc` | software/bootloader_PIC/src/Framework_flash.c:170-183 | the two-nibble table loop computes the reference CRC |
| `Crc16.CalculateCrcHost` | software/bootloader_PC/PIC32UBL/BootLoader.cpp:40-55 | the loop of the PC on signed characters computes the same function |
| `Crc16.SignBitsVanish` | software/bootloader_PC/PIC32UBL/BootLoader.cpp:47-50 | the sign bits of a negative character never reach the table index |
| `Crc16.NibbleIsSerial` | software/bootloader_PIC/src/Framework_flash.c:26-29 | a table step is four steps of bit-serial division |
| `Crc16.CrcIsRemainder` | software/bootloader_PIC/src/Framework_flash.c:170-183 | the CRC is the remainder of the message times x^16, divided by x^16 + x^12 + x^5 + 1 bit by bit |
| `Crc16.CrcFromConcat` | software/bootloader_PIC/src/Framework_flash.c:170-183 | the CRC can be continued over concatenated messages |
| `Crc16.CrcLinear` | software/bootloader_PIC/src/Framework_flash.c:170-183 | the CRC of the XOR of two messages of one length is the XOR of their CRCs |
| `Crc16.BurstDetected` | software/bootloader_PIC/src/Framework_flash.c:170-183 | two messages that differ only within sixteen consecutive bits have different CRCs |
| `Crc16.AdjacentBytesDetected` | software/bootloader_PIC/src/Framework_flash.c:170-183 | two messages that differ only within two adjacent bytes have different CRCs |
| `Framing.Receiver.BuildRxFrame` | software/bootloader_PIC/src/Framework.c:99-165 | feeding a chunk to the receiver is feeding its bytes, up to the first valid frame |
| `Framing.Receiver.ReceiveByte` | software/bootloader_PIC/src/Framework.c:106-161 | one byte: start, end, escape or data, with the buffer starting over when full |
| `Framing.Receiver.CrcMatches` | software/bootloader_PIC/src/Framework.c:132-138 | a frame is valid exactly when it is longer than a CRC and ends in the CRC of what precedes |
| `Framing.GetTransmitFrame` | software/bootloader_PIC/src/Framework.c:167-202 | the device sends the frame of its response, or nothing; lengths with CRC up to 255, the range of its loop counter |
| `Framing.SendFrame` | software/bootloader_PC/PIC32UBL/BootLoader.cpp:587-609 | the PC sends the frame of its command |
| `Framing.UnstuffInverse` | software/bootloader_PC/PIC32UBL/BootLoader.cpp:595-604 | a run of bytes is the stuffing of some data exactly when it is canonical and unstuffs to that data |
| `Framing.ShortestFrame` | software/bootloader_PC/PIC32UBL/BootLoader.cpp:595-604 | the frame of command 1 in bytes, with its CRC and escapes |
| `Framing.FeedUnstuffed` | software/bootloader_PIC/src/Framework.c:110-160 | on any run that unstuffs, canonical or not, the receiver adds exactly that data to its buffer |
| `Framing.FeedChunks` | software/bootloader_PIC/src/Framework.c:99-165 | cutting a stream into chunks does not matter |
| `Framing.DeliverChunks` | software/bootloader_PIC/src/Framework.c:99-165 | nor does it when the consumer takes every frame |
| `Framing.FrameDelivered` | software/bootloader_PIC/src/Framework.c:99-165 | a frame that fits is delivered exactly when no escape is pending, or the escape swallows the start byte just as the buffer starts over |
| `Framing.FrameFits` | software/bootloader_PIC/src/Framework.c:106-108 | a receiver in step delivers a body exactly when it and its CRC are shorter than the buffer |
| `Framing.SecondFrameDelivered` | software/bootloader_PIC/src/Framework.c:99-165 | after any garbage, the second of two consecutive frames is delivered exactly |
| `Framing.CorruptedBodyRejected` | software/bootloader_PIC/src/Framework.c:132-138 | a body damaged in one or two adjacent bytes is rejected |
| `Cbc.SignatureCheck.Reset` | software/bootloader_PIC/src/Framework_crypto.c:59-64 | a new check starts with zeros in place of what a partly filled block held: the fill count is not reset |
| `Cbc.SignatureCheck.Add` | software/bootloader_PIC/src/Framework_crypto.c:66-74 | one byte enters the running CBC-MAC |
| `Cbc.SignatureCheck.Check` | software/bootloader_PIC/src/Framework_crypto.c:76-88 | accepts exactly when the stored signature is the CBC-MAC of the stream padded with zeros to whole blocks |
| `Cbc.MacAppend` | software/bootloader_PIC/src/Framework_crypto.c:66-74 | chaining one more block into the MAC |
| `Cbc.DecryptStream.Reset` | software/bootloader_PIC/src/Framework_crypto.c:111-117 | a new stream; the fill count and the old file size stay |
| `Cbc.DecryptStream.Add` | software/bootloader_PIC/src/Framework_crypto.c:119-159 | hands on exactly the bytes that the reference decryption of the stream so far adds |
| `Cbc.DecryptStream.ReadHeader` | software/bootloader_PIC/src/Framework_crypto.c:129-143 | the file size is the low 32 bits of the header block, least significant byte first |
| `Cbc.DecryptStream.TakeBlock` | software/bootloader_PIC/src/Framework_crypto.c:145-153 | of each block as many bytes as the file still has |
| `Cbc.LengthOfHeader` | software/bootloader_PIC/src/Framework_crypto.c:129-143 | the additions and shifts give these 32 bits whatever stale value the accumulator held |
| `Cbc.DecryptEncrypt` | software/bootloader_PIC/src/Framework_crypto.c:119-159 | decryption undoes encryption, with the block cipher a parameter |
| `Cbc.EncryptedFileEmitted` | software/bootloader_PIC/src/Framework_crypto.c:119-159 | of an encrypted file exactly the text that its header announces is handed on |
| `Flash.LayoutIsValid` | software/bootloader_PIC/src/Framework_flash.c:215-232 | the layout of one device meets the assumptions on page and word alignment |
| `Flash.Device.NVMemWriteWord` | software/bootloader_PIC/src/Framework_flash.c:108-112 | programming a word clears bits of the aligned word and nothing else |
| `Flash.Device.NVMemErasePage` | software/bootloader_PIC/src/Framework_flash.c:228-232 | erasing a page sets its bytes to 0xFF and nothing else |
| `Flash.Device.EraseFlash` | software/bootloader_PIC/src/Framework_flash.c:215-232 | the erase loop erases the application area but for the preserved area |
| `Flash.Device.WriteHexRecord2Flash` | software/bootloader_PIC/src/Framework_flash.c:32-168 | the record loop cuts the buffer into records and applies each in turn |
| `Flash.Device.WriteRecord` | software/bootloader_PIC/src/Framework_flash.c:54-64 | a record with a wrong checksum changes nothing |
| `Flash.Device.WriteChecked` | software/bootloader_PIC/src/Framework_flash.c:64-164 | data, extended segment and linear address, end of file and unknown types |
| `Flash.Device.WriteDataRecord` | software/bootloader_PIC/src/Framework_flash.c:65-139 | the programming loop, word by word with 0xFF filling, over writable words only |
| `Flash.SplitJoin` | software/bootloader_PIC/src/Framework_flash.c:42-55 | cutting a run of whole records gives these records back |
| `Flash.ApplyAllConcat` | software/bootloader_PIC/src/Framework_flash.c:32-168 | applying records distributes over concatenation |
| `Records.ChecksumIsSum` | software/bootloader_PIC/src/Framework_flash.c:54-58 | the checksum is right if and only if the bytes sum up to a multiple of 256 |
| `Records.KvaSetsTopBit` | software/bootloader_PC/PIC32UBL/Hex.cpp:25 | the virtual address is the physical one with the top bit set |
| `Records.DataRecordStored` | software/bootloader_PIC/src/Framework_flash.c:65-139 | a right data record copies its data, on erased words, to the address in its own two bytes, high byte first, plus the extended addresses |
| `Records.DataRecordCopied` | software/bootloader_PC/PIC32UBL/Hex.cpp:199-226 | the PC copies the same bytes to the same address |
| `Records.AddressRecordSets` | software/bootloader_PIC/src/Framework_flash.c:140-163 | the extended addresses that types 02, 04 and all others leave, from the bytes of the record, on both sides |
| `Records.WrongSumDropped` | software/bootloader_PIC/src/Framework_flash.c:60-62 | a record with a wrong sum changes nothing |
| `Records.AnyAddressStored` | software/bootloader_PIC/src/Framework_flash.c:32-168 | a type 04 record and a data record made from any address store data there, whatever was set before |
| `HostImage.HexManager.VerifyFlash` | software/bootloader_PC/PIC32UBL/Hex.cpp:172-256 | image, start, length and CRC of the PC are those of the reference image |
| `HostImage.HexManager.ReadRecord` | software/bootloader_PC/PIC32UBL/Hex.cpp:194-245 | one record on the virtual flash, the addresses and the running minimum and maximum |
| `HostImage.MaxRounding` | software/bootloader_PC/PIC32UBL/Hex.cpp:248-249 | the rounding of the end reaches a word boundary exactly for even ends |
| `HostImage.ReportedRange` | software/bootloader_PC/PIC32UBL/Hex.cpp:248-252 | the reported range stays in the application area exactly unless the image ends one byte short of it |
| `HostImage.WriteDataErased` | software/bootloader_PIC/src/Framework_flash.c:75-137 | on erased words the word-wise programming of a record is a copy of its bytes |
| `HostImage.PassedOverAgrees` | software/bootloader_PC/PIC32UBL/Hex.cpp:199-215 | records in the boot sector or inside the preserved area, which both sides pass over |
| `HostImage.RecordAgrees` | software/bootloader_PC/PIC32UBL/Hex.cpp:194-245 | a well-placed record keeps flash and virtual flash in agreement |
| `HostImage.AllAgree` | software/bootloader_PC/PIC32UBL/Hex.cpp:192-246 | so does every well-formed sequence of records |
| `HostImage.ImagesAgree` | software/bootloader_PC/PIC32UBL/Hex.cpp:172-256 | for every well-formed file, what the device reads back in the reported range, preserved area as 0xFF, is what the PC computed its CRC over |
| `HostRange.AllBounds` | software/bootloader_PC/PIC32UBL/Hex.cpp:188-220 | minimum and maximum are those of the data records that are copied, and attained by them |
| `HostRange.ReportCovers` | software/bootloader_PC/PIC32UBL/Hex.cpp:188-256 | the reported range begins at the lowest address written, rounded down, and ends at the highest end, rounded as above; it covers every byte that was written |
| `Commands.Bootloader.EraseFlash` | software/bootloader_PIC/src/Framework_flash.c:215-253 | erases and restarts the signature check |
| `Commands.Bootloader.CalculateCrcWithoutEeprom` | software/bootloader_PIC/src/Framework_flash.c:186-212 | CRC of the view with the preserved area as 0xFF, which also enters the signature check |
| `Commands.Bootloader.ReadCrc` | software/bootloader_PIC/src/Framework.c:296-337 | answers the CRC if the signature matches, otherwise refuses and erases |
| `Commands.Bootloader.WriteSerial` | software/bootloader_PIC/src/Framework.c:356-369 | the serial number is written only over four unwritten bytes |
| `Commands.Bootloader.WriteKey` | software/bootloader_PIC/src/Framework.c:410-437 | a key is written only over sixteen unwritten bytes |
| `Commands.Bootloader.HandleCommandGeneral` | software/bootloader_PIC/src/Framework.c:204-449 | new state and response of every command |
| `Commands.SerialGuarded` | software/bootloader_PIC/src/Framework.c:356-369 | the serial word holds the four bytes in reverse, as a big-endian number; other guarded bytes stay |
| `Commands.KeyGuarded` | software/bootloader_PIC/src/Framework.c:374-437 | a key arrives as sent; other guarded bytes stay |
| `Commands.EventGuarded` | software/bootloader_PIC/src/Framework.c:245-449 | every command, a READ_CRC outside the flash, and a record cut out of stale memory by a malformed frame respect the guarded areas |
| `Commands.RunGuarded` | software/bootloader_PIC/src/Framework.c:245-449 | over every run: outside the application area nothing changes, in the preserved area only serial number and keys, and these not once written |
| `Effects.BootKeyCommand` | software/bootloader_PIC/src/Framework.c:410-437 | command 10 stores the boot key, at its place only, if that is blank, and answers with what is stored |
| `Effects.MacKeyCommand` | software/bootloader_PIC/src/Framework.c:374-409 | command 9 does so for the key of the signature check, which it also takes into use |
| `Effects.SerialCommands` | software/bootloader_PIC/src/Framework.c:349-372 | commands 7 and 8 on the serial number, byte by byte |
| `Effects.OtherCommands` | software/bootloader_PIC/src/Framework.c:232-446 | version, start, signature, and the numbers that do nothing |
| `Effects.EraseCommand` | software/bootloader_PIC/src/Framework.c:245-255 | command 2, byte by byte, and the new start of the signature check |
| `Effects.CrcCommand` | software/bootloader_PIC/src/Framework.c:296-336 | command 4 on any range, sent low byte first: answer, or refusal and erase |
| `Commands.NumberRead` | software/bootloader_PIC/src/Framework.c:308-309 | the handler reads the number whose bytes were sent, the lowest first |
| `Update.FramesDelivered` | software/bootloader_PIC/src/Framework.c:99-165 | a receiver in step delivers a sequence of frames exactly and stays in step |
| `Update.SessionConcat` | software/bootloader_PIC/src/Framework.c:245-449 | handling bodies one after the other can be cut anywhere |
| `Update.ProgramBatch` | software/bootloader_PIC/src/Framework.c:287-294 | one PROGRAM_FLASH frame applies its batch of records |
| `Update.ProgramPhase` | software/bootloader_PC/PIC32UBL/BootLoader.cpp:468-495 | programming in batches of any grouping is programming the records one after the other |
| `Update.UpdateHandled` | software/bootloader_PC/PIC32UBL/BootLoader.cpp:443-513 | erase, batches and query: the answer is that of READ_CRC on the programmed image |
| `Update.UpdateAgrees` | software/bootloader_PC/PIC32UBL/Hex.cpp:172-256 | end to end over the wire: the answer is the CRC that the PC computed, if the stored signature is the CBC-MAC of its image; otherwise the device refuses and erases |
| `Replay.RecordsMask` | software/bootloader_PIC/src/Framework_flash.c:32-168 | records act on any flash as a mask, the one that they leave on erased flash |
| `Replay.RepeatIsLead` | software/bootloader_PIC/src/Framework_flash.c:32-168 | a batch once more does what its leading records, those before the first that sets the extended addresses, do alone |
| `Replay.RepeatHarmless` | software/bootloader_PIC/src/Framework_flash.c:32-168 | a batch may be repeated if and only if each leading record finds the flash already written at the extended addresses of the end |
| `Replay.RepeatedFrameHarmless` | software/bootloader_PIC/src/Framework.c:287-294 | so may its PROGRAM_FLASH frame, if and only if, as a retransmission does |
| `Replay.ZerosTwice` | software/bootloader_PIC/src/Framework_flash.c:140-156 | a concrete batch, data and then an extended address, that is written to a second place when repeated |
| `HexText.ConvertAsciiToHex` | software/bootloader_PIC/src/Framework.c:451-489 | the digits at the front of a text, in pairs, as bytes; upper case becomes lower case in place and nothing else changes |
| `HexText.ConvertRendered` | software/bootloader_PIC/src/Framework.c:451-489 | conversion undoes rendering in digits of either case |
| `HexText.DigitsAre` | software/bootloader_PIC/src/Framework.c:466-480 | the digits in ASCII, and their lower case |
| `HexText.LineConverted` | software/bootloader_PIC/src/Framework.c:457-461 | conversion stops exactly at the first character that is not a digit |
| `HexText.OneRecord` | software/bootloader_PIC/src/Framework_flash.c:42-55 | a converted line with one record applies that record |
| `Ingest.SdLoader.ReadStep` | software/bootloader_PIC/src/Framework_sdcard.c:124-188 | one chunk with the carried-over part of a record does what reading at once does; all of it enters the signature check |
| `Ingest.SdLoader.SplitRecords` | software/bootloader_PIC/src/Framework_sdcard.c:145-175 | the splitting loop over the buffer |
| `Ingest.SdLoader.TakeCharacter` | software/bootloader_PIC/src/Framework_sdcard.c:147-174 | one character of the splitting loop |
| `Ingest.SdLoader.CarryOver` | software/bootloader_PIC/src/Framework_sdcard.c:177-186 | a record cut by the end of a chunk is carried over whole |
| `Ingest.SdLoader.CheckStep` | software/bootloader_PIC/src/Framework_sdcard.c:189-198 | the application stays if the signature matches, and is erased otherwise |
| `Ingest.SdLoader.LoadFile` | software/bootloader_PIC/src/Framework_sdcard.c:124-198 | a whole file in any chunks: image and verdict depend on the text only |
| `Ingest.LoadConcat` | software/bootloader_PIC/src/Framework_sdcard.c:145-175 | reading text in parts is reading it at once |
| `Ingest.CarryFound` | software/bootloader_PIC/src/Framework_sdcard.c:177-182 | scanning the carried-over characters again finds the record again |
| `Ingest.JunkIgnored` | software/bootloader_PIC/src/Framework_sdcard.c:149-158 | between records, text without a colon does nothing |
| `Ingest.LoadText` | software/bootloader_PIC/src/Framework_sdcard.c:124-188 | the text reader applies exactly the records of the lines |
| `DecryptedIngest.DecryptLoader.AddPlain` | software/bootloader_PIC/src/Framework.c:262-283 | one decrypted character in the line buffer, which wraps at 1024 and restarts at a colon |
| `DecryptedIngest.DecryptLoader.ProgramFlash` | software/bootloader_PIC/src/Framework.c:256-285 | one frame of secret bytes: what it adds to the decrypted text is assembled and written |
| `DecryptedIngest.DecryptLoader.ProgramFile` | software/bootloader_PIC/src/Framework.c:256-285 | a whole encrypted file in any frames: only the decrypted text matters |
| `DecryptedIngest.HandedOnGrows` | software/bootloader_PIC/src/Framework_crypto.c:119-159 | what decryption has handed on is never taken back |
| `DecryptedIngest.AssembleConcat` | software/bootloader_PIC/src/Framework.c:262-283 | assembling text in parts is assembling it at once |
| `DecryptedIngest.ColonRestarts` | software/bootloader_PIC/src/Framework.c:264-270 | what stands in front of a colon in its line does nothing, and neither does what the buffer held |
| `DecryptedIngest.AssembleText` | software/bootloader_PIC/src/Framework.c:262-283 | the decrypted text of a file applies exactly the records of its lines, whatever the line buffer held |
| `HostFile.PairValue` | software/bootloader_PC/PIC32UBL/Hex.cpp:143-157 | the number that the PC reads from two digits is the byte that the device puts together |
| `HostFile.ConvertDigitPairs` | software/bootloader_PC/PIC32UBL/Hex.cpp:132-160 | conversion on the PC gives the same bytes |
| `HostFile.HexFile.ReadLine` | software/bootloader_PC/PIC32UBL/Hex.cpp:84 | fgets: as much as the buffer takes of the line, and the end-of-file flag |
| `HostFile.HexFile.GetNextHexRecord` | software/bootloader_PC/PIC32UBL/Hex.cpp:77-98 | the record in the line that fgets leaves in the buffer, none after the end of the file or without a colon |
| `HostFile.LineRead` | software/bootloader_PC/PIC32UBL/Hex.cpp:77-98 | a line of a well-formed file gives its record, and only that line is taken |
| `HostFile.HexFile.ReadRecords` | software/bootloader_PC/PIC32UBL/Hex.cpp:192-194 | the loop over the file, whatever the line buffer holds at each call |
| `HostFile.HostReadsLines` | software/bootloader_PC/PIC32UBL/Hex.cpp:192-194 | all lines of a well-formed file are read in order, whatever follows them |
| `HostFile.HostReadsText` | software/bootloader_PC/PIC32UBL/Hex.cpp:82-96 | a file that ends in an end of line gives its records, and then the one in what the uninitialised line buffer holds; it is read exactly if and only if there is none in it |
| `HostFile.HostReadsUnended` | software/bootloader_PC/PIC32UBL/Hex.cpp:82-96 | a file whose last line has no end is read exactly |
| `HostFile.HostStops` | software/bootloader_PC/PIC32UBL/Hex.cpp:86-90 | the loop stops at the first line without a colon, whatever follows |
| `HostFile.EndLineTwice` | software/bootloader_PC/PIC32UBL/Hex.cpp:82-96 | a file of one record, read as two, with the line buffer that makes it so |
| `Paths.PathsAgree` | software/bootloader_PIC/src/Framework.c:256-291 | one file, read by the PC and sent in any batches, or from the memory card, or decrypted: the same image and extended addresses, if and only if the record more that the PC may read is none or changes nothing |
| `Paths.LastRecordAgain` | software/bootloader_PC/PIC32UBL/Hex.cpp:82-96 | if it is the last record of the file again, it changes nothing on the device |
| `Paths.LastRecordAgainOnHost` | software/bootloader_PC/PIC32UBL/Hex.cpp:194-245 | nor in the image, the addresses and the range of the PC |
| `Paths.EncryptedFileProgrammed` | software/bootloader_PIC/src/Framework.c:256-285 | an encrypted hex file, in any frames and into any line buffer, leaves the image of its records |
| `Paths.ProgramEncryptedFile` | software/bootloader_PIC/src/Framework.c:256-285 | the same for the frames handled by the device |
| `Paths.EncryptedTextHandedOn` | software/bootloader_PIC/src/Framework_crypto.c:119-159 | the frames of an encrypted file hand on its text |
| `Paths.HeaderNamesSize` | software/bootloader_PIC/src/Framework_crypto.c:119-159 | the header begins with the size of the text, the lowest byte first |
| `Tick.ReadingParts` | software/bootloader_PIC/src/Tick.c:259-338 | TickGet, TickGetDiv256 and TickGetDiv64K return the 32-bit parts of the 48-bit count in the reading |
| `Tick.CorrectedCount` | software/bootloader_PIC/src/Tick.c:206-221 | the correction gives the upper part of the true count; without it the count is wrong exactly at 0xFFFF on parts that interrupt on match |
| `Tick.CountedKept` | software/bootloader_PIC/src/Tick.c:419-426 | the interrupts counted and the one pending make up the periods announced, through every step |
| `Tick.ReaderKept` | software/bootloader_PIC/src/Tick.c:195-230 | every statement of the reader keeps the sampled count consistent |
| `Tick.ReadingCorrect` | software/bootloader_PIC/src/Tick.c:229 | when the flag is down at the end, the reading is the count at the instant the timer was read |
| `Tick.InvKept` | software/bootloader_PIC/src/Tick.c:195-230 | every step of timer, interrupt and reader keeps the invariant |
| `Tick.EveryReadingLinear` | software/bootloader_PIC/src/Tick.c:195-232 | in every run, every call returns the true 48-bit count of an instant within the call, on both kinds of parts |
| `Tick.EnabledOutside` | software/bootloader_PIC/src/Tick.c:204-231 | in every run the interrupt is enabled when no call is under way |
| `Tick.UndisturbedCall` | software/bootloader_PIC/src/Tick.c:196-231 | a call that no interrupt disturbs ends after one round, with the count of the instant |
| `Tick.ReadingsMonotone` | software/bootloader_PIC/src/Tick.c:195-232 | readings never go backwards below 48 bits |
| `DhcpMessage.Reader.Receive` | software/bootloader_PIC/src/DHCP.c:783-1079 | the reader of a message computes the specified variables and message kind |
| `DhcpMessage.Reader.ReadOptions` | software/bootloader_PIC/src/DHCP.c:862-1056 | the option loop |
| `DhcpMessage.Reader.ReadOption` | software/bootloader_PIC/src/DHCP.c:874-1055 | one option, also when it is cut off by the end of the packet |
| `DhcpMessage.Reader.SkipCounting` | software/bootloader_PIC/src/DHCP.c:1050-1054 | while(j--): skips j bytes and leaves 255 in the BYTE |
| `DhcpMessage.OptionsFolded` | software/bootloader_PIC/src/DHCP.c:862-1056 | the reader hears the fold of the options that it visits, unless one is the last byte of the packet |
| `DhcpMessage.VisitedIfPaired` | software/bootloader_PIC/src/DHCP.c:862-1056 | the reader sees exactly the options of a whole message (RFC 2132, pads of one byte) if and only if its pads are paired, or a last one leads it to nothing behind the end |
| `DhcpMessage.ReadAsMeant` | software/bootloader_PIC/src/DHCP.c:862-1056 | with such pads it reads the message as it is meant |
| `DhcpMessage.OptionsSaid` | software/bootloader_PIC/src/DHCP.c:862-1056 | and then type and server that it finds are ones that the message says, or it says none |
| `DhcpMessage.MeantIsLast` | software/bootloader_PIC/src/DHCP.c:862-1056 | a message read as it is meant is heard if and only if its lengths are right, and type and server are those that it says last |
| `DhcpMessage.LastSaidIsSaid` | software/bootloader_PIC/src/DHCP.c:862-1056 | what is said last is one of the things said, and nothing is exactly if none is |
| `DhcpMessage.PaddedOfferUnheard` | software/bootloader_PIC/src/DHCP.c:1050-1054 | an offer with one pad in front, which the reader does not hear |
| `DhcpMessage.CutOffOfferHeard` | software/bootloader_PIC/src/DHCP.c:934-940 | an offer that ends after the code of its router option, heard because of the 255 left by the option before |
| `DhcpMessage.CutOffFixed` | software/bootloader_PIC/src/DHCP.c:874-1046 | an option of fixed length cut off behind its code makes the message invalid |
| `DhcpMessage.NumberOfBytes` | software/bootloader_PIC/src/DHCP.c:1020-1046 | a lease time of which some bytes are missing keeps its own |
| `Dhcp.DhcpClient.DHCPInit` | software/bootloader_PIC/src/DHCP.c:216-253 | reset, closing the socket that is held |
| `Dhcp.DhcpClient.DHCPDisable` | software/bootloader_PIC/src/DHCP.c:279-290 | gives the socket up |
| `Dhcp.DhcpClient.DHCPEnable` | software/bootloader_PIC/src/DHCP.c:314-324 | starts again from a disabled client only |
| `Dhcp.DhcpClient.DHCPTask` | software/bootloader_PIC/src/DHCP.c:500-763 | one call of the state machine, with its fall-through cases |
| `Dhcp.DhcpClient.GetRequestAck` | software/bootloader_PIC/src/DHCP.c:616-678 | bind, refusal, timeout |
| `Dhcp.DhcpClient.GetRenewAck` | software/bootloader_PIC/src/DHCP.c:725-759 | renewal, refusal, next try, rediscovery |
| `Dhcp.ReceivedFresh` | software/bootloader_PIC/src/DHCP.c:846-855 | an offer is taken with its address and server |
| `Dhcp.ReceivedHeld` | software/bootloader_PIC/src/DHCP.c:883-887 | while an offer is held nothing changes it, and only messages of its server count |
| `Dhcp.HappenKeeps` | software/bootloader_PIC/src/DHCP.c:500-763 | every call and every message keeps the invariant |
| `Dhcp.EveryRunInStep` | software/bootloader_PIC/src/DHCP.c:216-324 | in every run: one socket in the talking states and none in others, base time a power of two from 2 to 64, at most three renewals |
| `Dhcp.TimerStays` | software/bootloader_PIC/src/DHCP.c:500-763 | the timer stays a 32-bit number in every call, so that runs need not ask for it |
| `Dhcp.BindsOfferedAddress` | software/bootloader_PIC/src/DHCP.c:616-663 | the configured address is that of the accepted offer to this client, and the acknowledgement is from the server of that offer |
| `Dhcp.BindNamesOneServer` | software/bootloader_PIC/src/DHCP.c:616-663 | on the first bind, offer and acknowledgement name one server, if both name one |
| `Dhcp.OfferTaken` | software/bootloader_PIC/src/DHCP.c:565-613 | whoever requests took the held offer in an earlier event, and did nothing but request since |
| `Dhcp.BindsAddressOfRun` | software/bootloader_PIC/src/DHCP.c:565-663 | over runs from power-on: the configured address is that of an offer taken in an earlier event, with no bind in between, and both messages come from one server |
| `DhcpBind.OfferParameters` | software/bootloader_PIC/src/DHCP.c:906-1000 | a whole offer brings the mask, the gateway and 31/32 of the lease that it says last |
| `DhcpBind.DiscoverySent` | software/bootloader_PIC/src/DHCP.c:519-555 | of a waiting client: when its discovery was sent, and that then nothing is left of earlier parameters |
| `DhcpBind.BindsParametersOfRun` | software/bootloader_PIC/src/DHCP.c:565-663 | over runs from power-on: the mask, gateway and lease of a bind are those that the offer says last; what it does not say is what was there before, or what another reply since the discovery said |
| `DhcpBind.StrayMaskConfigured` | software/bootloader_PIC/src/DHCP.c:657-660 | a concrete acknowledgement and an offer without a mask, by which the mask of the former is configured |
| `DhcpAnswer.MessageCounts` | software/bootloader_PIC/src/DHCP.c:1059-1071 | which whole messages count as offer, acknowledgement or refusal, by what they say last |
| `DhcpAnswer.AnswerDecides` | software/bootloader_PIC/src/DHCP.c:634-678 | a waiting client binds, or goes back, exactly on an acknowledgement, or a refusal, of its server |
| `DhcpAnswer.OfferDecides` | software/bootloader_PIC/src/DHCP.c:583-591 | it requests exactly on an offer |
| `DhcpAnswer.TimeoutDecides` | software/bootloader_PIC/src/DHCP.c:568-580 | without an answer: nothing before the deadline, then backoff, or the next of three renewals |
| `DhcpAnswer.SendingDecides` | software/bootloader_PIC/src/DHCP.c:532-556 | discovery, request and renewal go out exactly with a link and room, and set the deadline |
| `DhcpAnswer.SocketDecides` | software/bootloader_PIC/src/DHCP.c:511-518 | a client without a socket goes on exactly if it gets one |
| `DhcpAnswer.OperatorDecides` | software/bootloader_PIC/src/DHCP.c:216-324 | initialising, disabling and enabling |
| `DhcpAnswer.FlagsDecide` | software/bootloader_PIC/src/DHCP.c:500-763 | when the client counts as bound, raises its event, and has seen a server |
| `DhcpAnswer.RenewsInTime` | software/bootloader_PIC/src/DHCP.c:680-708 | renewal begins exactly when at most three times the base time is left |
| `DhcpAnswer.RenewalKeepsConfig` | software/bootloader_PIC/src/DHCP.c:725-759 | a renewal does not change the configuration |
| `Dhcp.RenewalKeepsAddress` | software/bootloader_PIC/src/DHCP.c:846-855 | during a renewal the address stays if and only if an offer is held or the packet is no reply to this client with another address |
| `Dhcp.RenewalKeepsServer` | software/bootloader_PIC/src/DHCP.c:1059-1071 | and the server if and only if an offer is held or the packet is not heard as an offer of another server to this client |
| `Dhcp.RenewalKeepsServerSaid` | software/bootloader_PIC/src/DHCP.c:1059-1071 | the same in terms of what a whole message with paired pads says last |
| `Dhcp.CutOffOfferTakesServer` | software/bootloader_PIC/src/DHCP.c:934-940 | a concrete cut-off offer takes the server |
| `Dhcp.StrayReplyTakesOver` | software/bootloader_PIC/src/DHCP.c:725-759 | a concrete foreign acknowledgement and a concrete foreign offer take over the address, the offer also the server |
| `Dhcp.RequestNamesOffer` | software/bootloader_PIC/src/DHCP.c:1101-1213 | the request names the address and the server of the offer |
| `DhcpSent.ListSaid` | software/bootloader_PIC/src/DHCP.c:1149-1193 | a message with a list of options says these and no others |
| `DhcpSent.DiscoveryWritten` | software/bootloader_PIC/src/DHCP.c:1101-1213 | the discovery: every header field, its options, the address that was held |
| `DhcpSent.RequestWritten` | software/bootloader_PIC/src/DHCP.c:1101-1213 | the request: server and address of the offer, in options |
| `DhcpSent.RenewalWritten` | software/bootloader_PIC/src/DHCP.c:1101-1213 | the renewal: the address in the header, neither in options |
| `DhcpSent.MessageOfState` | software/bootloader_PIC/src/DHCP.c:500-763 | in every event a message is sent exactly when the client begins to wait, and the one that belongs to the state |
| `Dhcp.DeadlineTest` | software/bootloader_PIC/src/DHCP.c:565-580 | deadline tests are right up to 2^31 ticks after the deadline, and exactly when beyond |
| `Dhcp.LeaseCountsTrueSeconds` | software/bootloader_PIC/src/DHCP.c:680-692 | a second of lease goes for a true second, never early, across the wrap of the counter; lease and time add up to the lease granted |
| `Checksum.CalcIPBufferChecksum` | software/bootloader_PIC/src/ENC28J60.c:960-1010 | the chunked loop returns the complement of the one's complement sum, for every length |
| `Checksum.AddChunk` | software/bootloader_PIC/src/ENC28J60.c:988-994 | the inner loop adds the words of a chunk without overflow |
| `Checksum.OnesSumIsCanonical` | software/bootloader_PIC/src/ENC28J60.c:1001-1009 | the one's complement sum is the 16-bit representative of the plain sum |
| `Checksum.TwoFolds` | software/bootloader_PIC/src/ENC28J60.c:1002-1009 | two end-around carries are enough for any 32-bit sum |
| `Checksum.SwappedSum` | software/bootloader_PIC/src/ENC28J60.c:988-994 | the sum of byte-swapped words is the byte-swapped sum |
| `Checksum.ChecksumOnTheWire` | software/bootloader_PIC/src/ENC28J60.c:1008-1009 | stored low byte first, the result is the Internet checksum in network order |
| `IpHeader.IpLayer.IPGetHeader` | software/bootloader_PIC/src/IP.c:136-229 | accepts exactly version 4, fragment offset zero and a right checksum, and returns the fields |
| `IpHeader.IpLayer.IPPutHeader` | software/bootloader_PIC/src/IP.c:252-281 | writes the header with its checksum |
| `IpHeader.SwapIPHeader` | software/bootloader_PIC/src/IP.c:306-311 | the three fields change byte order in place |
| `IpHeader.SwappedTwice` | software/bootloader_PIC/src/IP.c:306-311 | swapped twice, a header is as it was |
| `IpHeader.FragmentMask` | software/bootloader_PIC/src/IP.c:159-162 | the mask is zero exactly when the fragment offset is |
| `IpHeader.FilledSum` | software/bootloader_PIC/src/IP.c:274 | the checksum makes the sum of the header all ones |
| `IpHeader.HeaderAccepted` | software/bootloader_PIC/src/IP.c:252-281 | every written header is accepted and gives back protocol, addresses and length |
| `IpHeader.GoodExactly` | software/bootloader_PIC/src/IP.c:136-200 | which headers pass, byte by byte: version, offset, and a sum that is a positive multiple of 0xFFFF |
| `IpHeader.FirstFragmentAccepted` | software/bootloader_PIC/src/IP.c:159-162 | a first fragment is taken for a whole packet: the flag for more fragments is ignored |
| `RxRing.Controller.constructor` | software/bootloader_PIC/src/ENC28J60.c:260-270 | the ring is empty |
| `RxRing.Controller.Arrive` | software/bootloader_PIC/src/ENC28J60.c:112-121 | the hardware adds a packet behind those held |
| `RxRing.Controller.MACDiscardRx` | software/bootloader_PIC/src/ENC28J60.c:459-486 | one decrement per delivered packet; the read pointer moves to the odd address before the next packet |
| `RxRing.ReadPointerOdd` | software/bootloader_PIC/src/ENC28J60.c:469-485 | in every run the register is odd and inside the ring |
| `RxRing.FrameFields` | software/bootloader_PIC/src/ENC28J60.c:592-620 | sender and type of a frame as it lies in the ring, type high byte first |
| `RxRing.StatusFields` | software/bootloader_PIC/src/ENC28J60.c:597-606 | which bits of the status vector make a packet good |
| `RxRing.Controller.MACGetFreeRxSize` | software/bootloader_PIC/src/ENC28J60.c:505-545 | free size is read pointer less write pointer less one, modulo the ring: all but what is held and a gap of two |
| `RxRing.Controller.MACGetHeader` | software/bootloader_PIC/src/ENC28J60.c:569-631 | packets come out in order, each after the one before was discarded; well-behaved hardware never fails the tests |
| `RxRing.Controller.MACSetReadPtrInRx` | software/bootloader_PIC/src/ENC28J60.c:810-825 | seeks within the delivered packet |
| `RxRing.Controller.SeekAndRead` | software/bootloader_PIC/src/ENC28J60.c:810-825 | seeking and reading yields the bytes of the packet, also across the wrap |
| `RxRing.Controller.MACMemCopyAsync` | software/bootloader_PIC/src/ENC28J60.c:1041-1120 | both paths move the same bytes; current pointers advance, others are restored |
| `RxRing.Controller.Dma` | software/bootloader_PIC/src/ENC28J60.c:1099-1110 | the computed end address makes the DMA copy exactly the length |
| `RxRing.RingsMore` | software/bootloader_PIC/src/ENC28J60.c:569-631 | a packet that fits leaves the held packets alone |
| `RxRing.RingsHead` | software/bootloader_PIC/src/ENC28J60.c:589-613 | what is read at the next location is the next packet |
| `RxRing.StepsApart` | software/bootloader_PIC/src/ENC28J60.c:1099-1108 | no address before the end of a run is its end |
| `RxRing.CopiedIsMove` | software/bootloader_PIC/src/ENC28J60.c:1041-1120 | copying from the ring to the transmit memory is a linear copy of the ring's bytes |
| `PortScan.Scanner.LoadPorts` | software/netcat/netcat.c:731-746 | marks exactly the ports of the range |
| `PortScan.Scanner.NextPort` | software/netcat/netcat.c:694-725 | returns a marked port and unmarks it, or 0 exactly if there is none, whatever the random source gives |
| `PortScan.Scanner.ScanArg` | software/netcat/netcat.c:1946-2021 | each port of an argument once; from the top down without randomness |
| `PortScan.Scanner.ScanRandom` | software/netcat/netcat.c:1969-2021 | the random loop visits each marked port once and stops |
| `PortScan.Scanner.ScanDown` | software/netcat/netcat.c:1969-2021 | the plain loop visits the range from the top down |
| `PortScan.Scanner.ScanAll` | software/netcat/netcat.c:1945-2023 | all arguments in turn |
| `PortScan.OnceMeans` | software/netcat/netcat.c:1945-2023 | once each: every port of the argument occurs once, and no other |
| `PortScan.ArgumentPorts` | software/netcat/netcat.c:1945-2023 | which ports an argument stands for |
| `PortScan.DownwardOnce` | software/netcat/netcat.c:2019-2020 | counting down visits each port of the range once |

## Left out

- getopt: long options, the orderings other than permutation, a leading `+` or `-` of the option string (it is
  stripped on the first call only), error texts, and calls after the end was returned.
- AES itself: the block cipher is any function of key and block, with an inverse where decryption matters.
- Build variants: the model has no writable boot flash (`BOOT_FLASH_BASE_ADDRESS`), and the address range that
  the decrypting build collects for its own READ_CRC is not modelled.
- Errors of the flash hardware and the error counters: erasing and programming succeed.
- Commands.Bootloader.HandleCommandGeneral: asks that the records of a PROGRAM_FLASH frame are whole and that
  READ_CRC stays inside the flash, because the code would read memory beyond its buffers otherwise; what such
  a frame can do to the flash is in the stray records and queries of `Commands.EventGuarded`.
- Flash.Device.WriteHexRecord2Flash: asks that the buffer cuts into whole records, for the same reason.
- HostImage.HexManager.VerifyFlash: asks that copies and reported range stay inside the virtual flash, because
  the code would write and read beyond it otherwise.
- HexText.ConvertAsciiToHex: at most 255 digits in a row, because the UINT8 index would start over and the loop
  would not end.
- Framing.GetTransmitFrame: the length with CRC must be at most 255, because the UINT8 loop counter would
  never reach a greater length.
- Update.UpdateAgrees: frames arrive once and in order, because acknowledgements carry no sequence number;
  `Replay` says which frames may be repeated.
- Records.DataRecordStored: on erased words; on others the record acts as a mask (`Replay.RecordsMask`).
- HostImage.ImagesAgree: asks that the first record sets the extended addresses, because the PC starts with
  uninitialised ones, and that the file is well formed (`HostImage.WellPlaced`); the PC does not look at
  checksums. The file puts something into the image (`max` is not 0 exactly then, `HostRange.ReportCovers`),
  and its end is not the last address of the application area (`HostImage.ReportedRange`).
- HostFile.HexFile.GetNextHexRecord: a line with a colon holds digits in pairs, because the number conversion of the
  C library is modelled for two digits. The file is read in text mode, without carriage returns.
- Ingest.SdLoader.ReadStep: records of at most 200 digits and 256 characters, because the buffer for the bytes
  and the UINT8 length of a carried-over record hold no more. Finding, renaming and closing files is left out,
  and the copy of the carried-over part, whose ranges may overlap, runs upwards.
- The memory layout is a parameter with page and word alignment as assumptions; the layout header of the PC is
  not part of this model.
- Tick: the assumption that the interrupt is served before its flag rises again; the PIC18 and C30 readers.
- Dhcp: one interface, no DNS options (as configured), random numbers and socket results as inputs. The room
  to send is an input and sending succeeds. DHCPInit comes first, as in StackInit.
- Dhcp.BindsOfferedAddress: the first bind only; for renewals see `Dhcp.RenewalKeepsAddress`.
- DhcpBind.BindsParametersOfRun: speaks of the options of whole offers with paired pads, and so does
  `DhcpAnswer.MessageCounts` of messages, for the same reason as the next.
- DhcpMessage.OptionsSaid: whole messages with paired pads only, because the reader fails on others
  (`DhcpMessage.VisitedIfPaired`).
- RxRing: the SPI transfers, register banks, transmission, the loop that re-reads the packet counter (no packet
  arrives during a call), and the time that the DMA takes.
- RxRing.Controller.MACMemCopyAsync: a source in the ring is at most one ring long, and the destination does not
  pass the end of memory, because neither path of the code wraps there.
- PortScan: host and service names, connecting, and the random local port.
- Windows user interface, transports, telnet, the web and file system, pin maps and the motion code: plumbing
  and tables without properties of this kind.
