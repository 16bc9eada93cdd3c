# Verification of the MAIX boot loader

A Dafny model of the boot loader for the Kendryte K210: its two-slot boot over NOR flash, its Kermit receiver, and the
arithmetic and coding routines that both sides of the build rely on. `dafny verify dfyconfig.toml` checks everything.

## What is modelled

* **Flash and boot** (`NorFlash`, `Image`, `Boot`, `Recovery`, `Update`, `ImageBuilder`, `SelfRepair`, `Shortfalls`).
  The chip is 2^24 cells. A sector erase sets 4096 cells to 0xFF; a page program ANDs bits and wraps inside its 256-byte
  page. Each completed chip command is one step, and power may fail between any two. The driver's loops,
  `flash_image_check`, `flash_image_compare`, `flash_image_backup` and `main` (`Boot.Loader.PowerUp`) are methods over
  one chip object and the RAM at `_boot`. `Recovery` reasons about every prefix of the commands a power-up issues, and
  about any number of power-ups cut anywhere. The proofs hold for any two disjoint slots of whole sectors;
  `Image.STAGE1` and `Image.STAGE2` are the two layouts of `main.c`.
* **SHA-256 front end and CBC** (`Sha256`, `Cbc`). The accelerator is an uninterpreted function of the programmed block
  count and the bytes pushed to it; buffering, padding and the length field are modelled to the byte. CBC is modelled
  over an arbitrary 16-byte block function.
* **Kermit receiver** (`KermitProtocol`, `KermitDelivery`, `KermitLedger`, `KermitSession`, `KermitContents`,
  `KermitEncoding`, `KermitWire`, `KermitReceiver`, `KermitReplies`, `KermitDownload`). `KermitProtocol` states the
  receiver as a machine that takes one character at a time: a scanner that recognises packets and the data it
  checkpoints, rolls back and acknowledges. `KermitReceiver.Receiver` is `load.c` with its static variables, its buffers
  and its blocking reads, and is proved to compute that machine on every input. `KermitDelivery` gives the exact effect
  of every attempt to send a packet, whether it arrives, is rejected after or before its sequence number, or is not
  heard; `KermitLedger` shows that the receiver always holds the decoding of some list of packets, and that an account
  with three values for the data and three for the checkpoint, which looks at the fates and never at the data, says
  exactly when that list is the one sent. `KermitSession` proves delivery from it, and `KermitContents` that no
  condition on the fates could admit more. Transparency and the form of the replies are proved of the machine as well.
* **PLL search and registers** (`Pll`, `PllBest`), with doubles read as reals.
* **Coding kernels**: the (72,64) code (`Ecc`), the 72-bit mixer (`Mixer`), the table CRC (`Crc16`), SLIP framing
  (`Slip`).
* **Numbers and formatting** (`Numbers`, `Formatting`, `Directives`, `Printing`, `Formats`): the digit loops, `putchw`,
  `tfp_format` with its two string sinks, and `simple_strtoul`.

## Where the code falls short of what one would expect

Each of these is stated as a lemma with the exact condition or with the input that shows it.

* A good image in some slot is not enough to boot: APP must be good, or BAK must be good and carry another signature
  than APP's (`Recovery.BootableExactly`). With two copies of a built image, one damaged byte in APP's body that the
  hash notices keeps the chip from booting although BAK is good (`Shortfalls.DamagedCopyIsFatal`). If BAK alone is good
  and its signature is all ones, one cut after the first erase is fatal (`Recovery.BlankSignatureIsFatal`); otherwise no
  run of power cuts is (`Recovery.RecoverableExactly`).
* An encrypted image that has just been copied runs as ciphertext, because the backup reloads the raw bytes into the RAM
  that the check deciphered (`Boot.CodeIsPlain`). A chip with an encrypted image in APP and an erased BAK does that at
  its first power-up (`Shortfalls.RunsCiphertext`) and runs the firmware at the next (`Shortfalls.RunsPlainNext`).
* The decryption loop subtracts 16 from an unsigned length until it is zero, so an encrypted body that is not whole
  blocks never ends it (`Image.DecryptionEnds`). The verdict `Runaway` stands for that; a well-signed image of this kind
  in either slot keeps the chip from starting (`Shortfalls.OddLengthHangs`).
* The padding table of `sha256.c` ends in `02 00`: what is pushed is the padding of section 5.1.1 of FIPS 180-4 exactly
  if the length is not 56 or 57 modulo 64 (`Sha256.FeedIsStandard`), and the programmed block count fits exactly up to
  residue 55 (`Sha256.BlocksFit`), so that the driver computes the standard hash exactly up to there
  (`Sha256.DriverIsStandard`). The images of `genimg.py` always fall into residue 32.
* The Kermit receiver rolls back data that it has acknowledged. If a repetition of an accepted packet arrives damaged
  and the sender, which holds the first acknowledgement, goes on, the packet is lost
  (`KermitSession.RepetitionLosesData`). A packet rejected on its length or sequence number rolls back the packet
  accepted before it (`KermitSession.EarlyReject`, `KermitSession.LengthErrorLosesData`). A repetition rejected after a
  wrong sequence number makes the next one count as a new packet (`KermitSession.WrongSequenceDoubles`).
  `KermitLedger.LedgerExactly` says which sessions deliver, and `KermitSession.LostForGood` when nothing the sender does
  can bring the data back.
* A quote character that `ktrans` changes, that is `?` or `@` to `_`, makes a file that contains it arrive changed
  (`KermitEncoding.Transparent`, `KermitEncoding.StableQuotes`).
* `a2u` tests `digit > base` and so takes `a` for a decimal digit worth ten: a width or precision is read right exactly
  if no `a` or `A` follows it (`Formatting.DecimalExactly`), and `%1ad` has the width 20 (`Formatting.WidthTwenty`).
* `putchw` keeps the remaining width in an `int`: a field has the width asked for exactly if that does not wrap around
  below (`Formatting.FieldWidth`), and `%2147483648u` pads to 2^31 characters (`Directives.WidestField`).
* The (72,64) code detects every one to three flips and every odd number of them, but four flips can pass
  (`Ecc.FourFlipsPass`).

## Model

| member | source | states |
|---|---|---|
| NorFlash.Chip.SectorErase | src/drivers/flash.c:328-338 | one erase command sets the whole sector of its 24-bit address to 0xFF and is appended to the chip's history |
| NorFlash.Chip.PageProgram | src/drivers/flash.c:416-429 | one program command ANDs its bytes into the cells, wrapping inside the page of its address |
| NorFlash.FlashReadData | src/drivers/flash.c:516-529 | the 32-byte reads fill exactly the requested range of the buffer with the chip's bytes and leave the rest of the buffer alone |
| NorFlash.WriteInPage | src/drivers/flash.c:441-447 | the part of a write in one page goes out in programs of at most 32 bytes, from left to right without a gap |
| NorFlash.FlashWriteData | src/drivers/flash.c:431-450 | any write at any address becomes programs that never cross a page and together carry exactly the data in order |
| NorFlash.DoFlashErase | src/cli/command.c:277-324 | rejects unaligned or empty requests; otherwise erases the rounded-up number of sectors in order, or stops at the first Ctrl-C |
| NorFlash.DoFlashWrite | src/cli/command.c:333-359 | the 128-byte loop issues programs that together carry exactly the data, in order and inside their pages |
| NorFlash.EraseEffect | src/cli/command.c:294-312 | a run of sector erases leaves 0xFF in exactly its range |
| NorFlash.WriteEffect | src/drivers/flash.c:416-450 | programs that keep to their pages AND the data over exactly its range, whatever the pieces |
| Sha256.Context.constructor | src/drivers/sha256.c:50-80 | an empty context and the block count (n + 64) / 64 in 32-bit arithmetic |
| Sha256.Context.PushBlock | src/drivers/sha256.c:104-109 | sixteen words push the 64 buffered bytes in order |
| Sha256.Context.Update | src/drivers/sha256.c:82-113 | however a message is split over calls, what has been pushed plus what is buffered is the concatenation |
| Sha256.Context.Final | src/drivers/sha256.c:115-136 | the words pushed for a whole message are the message, table bytes and the big-endian bit length |
| Sha256.SwapIsBigEndian | src/drivers/sha256.c:34-40 | swapping the bytes of the 64-bit length gives the big-endian length field in little-endian memory |
| Sha256.FeedIsStandard | src/drivers/sha256.c:115-126 | the bytes pushed are the padded message of FIPS 180-4 section 5.1.1 if and only if the length is not 56 or 57 modulo 64 |
| Sha256.BlocksFit | src/drivers/sha256.c:55-64 | the programmed block count is the number of blocks pushed if and only if the length modulo 64 is at most 55 |
| Sha256.DriverIsStandard | src/drivers/sha256.c:50-136 | whatever the accelerator computes, the driver's hash is the standard one if and only if the length modulo 64 is at most 55 |
| Cbc.Aes128Cbc.constructor | utils/kflash.py:228-235 | chaining starts from the initialization vector |
| Cbc.Aes128Cbc.Create | utils/kflash.py:228-235 | without a vector chaining starts from sixteen zeros, and a vector of another length than 16 is an error |
| Cbc.Aes128Cbc.Encrypt | utils/kflash.py:238-245 | one block is chained to the previous cipher block, which it replaces; any other length is an error and changes nothing |
| Cbc.Aes128Cbc.Decrypt | utils/kflash.py:247-255 | one block is unchained from the previous cipher block, which it replaces; any other length is an error and changes nothing |
| Cbc.DecryptedEncrypted | utils/kflash.py:238-255 | decryption undoes encryption over any number of blocks, for any inverse block functions and equal IVs |
| Cbc.XorBit | utils/kflash.py:242 | a bit of an exclusive or is set if and only if the two bits differ |
| Cbc.DecryptedByte | utils/kflash.py:247-255 | as in section 6.2 of NIST SP 800-38A, each deciphered byte is xored with the byte at its own place in the cipher block before, or in the IV |
| Cbc.EncryptedBlock | utils/kflash.py:238-245 | each cipher block is the encryption of the plaintext block xored byte by byte with the cipher block before, or with the IV |
| Cbc.FlippedByte | utils/kflash.py:247-255 | outside its own block a changed cipher byte changes only the byte at its place in the next block, and that by the same exclusive or |
| Cbc.WholeBlocks | utils/kflash.py:886-887 | fifteen zeros and floor division give the firmware zero-padded to a multiple of 16, every byte of it kept |
| Cbc.EncryptFirmware | utils/kflash.py:884-887 | the block loop computes the CBC encryption of the zero-padded firmware |
| Image.DecryptionEnds | src/main.c:201-210 | the 32-bit counter of the decryption loop reaches zero if and only if the length is a multiple of 16 |
| Image.CheckIsVerdict | src/main.c:116-173 | an image that fits its slot is judged by its own bytes alone |
| Image.CheckFrame | src/main.c:104-218 | the verdict on a slot depends on no byte outside the slot |
| Boot.Loader.Decipher | src/main.c:187-210 | decryption in place leaves the CBC decryption of the body and touches nothing after it |
| Boot.Loader.Hash | src/main.c:143-154 | the digest covers flag, length and body, in that order |
| Boot.Loader.SameSign | src/main.c:156-173 | the byte loop decides equality of the two signatures |
| Boot.Loader.FlashImageCheck | src/main.c:104-218 | returns the verdict on the slot; if it passes, RAM holds the deciphered body |
| Boot.Loader.FlashImageCompare | src/main.c:220-240 | tells whether the stored signatures differ, wherever the length fields point |
| Boot.Loader.EraseAndWrite | src/main.c:257-264 | erases, then writes flag, length and the rest in this order, also after an interrupted erase |
| Boot.Loader.FlashImageBackup | src/main.c:242-265 | copies the image with header first and signature last and leaves the raw body in RAM |
| Boot.Loader.PowerUp | src/main.c:284-352 | one power-up: which copy is made if any, which commands are issued, whether it boots, and what RAM then holds |
| Boot.CodeIsPlain | src/main.c:319-346 | what is booted is the deciphered body of an image that verified, if and only if no backup ran, the image is not encrypted, or its ciphertext equals its plaintext |
| Recovery.CopyStates | src/main.c:257-264 | every prefix of a backup leaves the target untouched, with an erased header, or with the image written up to some byte |
| Recovery.BlankHeader | src/main.c:127-132 | a slot with an erased header is oversize, and its length points back at erased bytes |
| Recovery.PartialSignature | src/main.c:263-264 | a partly written signature is blank or differs from the whole one, or the copy is complete |
| Recovery.HalfCopied | src/main.c:242-265 | however far a copy of a good image got, its signature equals the source's only if it passes the check |
| Recovery.FullyCopied | src/main.c:242-265 | a complete backup leaves the destination image byte-identical and good |
| Recovery.BootableExactly | src/main.c:319-346 | boot succeeds if and only if neither check hangs and APP is good, or BAK is good and the signatures differ |
| Recovery.UninterruptedBoot | src/main.c:319-346 | without Ctrl-C the commands issued by a power-up are those whose prefixes the recovery theorems cut |
| Recovery.CutBootKeeps | src/main.c:319-346 | one power cut anywhere keeps the flash recoverable |
| Recovery.CutBootsKeep | src/main.c:320-346 | no number of power cuts between chip commands takes a recoverable flash to one that does not boot |
| Recovery.SameFirmware | src/main.c:320-346 | however often power fails, the image booted in the end is the one chosen at first, unless a half-made copy passes the check |
| Recovery.BlankSignatureIsFatal | src/main.c:325-336 | if BAK alone is good and its signature is all ones, a cut after the first erase leaves a flash that does not boot |
| Recovery.RecoverableExactly | src/main.c:319-346 | every flash reachable through power cuts boots if and only if the first one boots and, when only BAK is good, its signature is not all ones |
| Recovery.UncutBoot | src/main.c:325-346 | after an uncut backup both slots hold the booted image and the next boot writes nothing |
| Update.BackupExactly | src/main.c:319-346 | a power-up writes to the chip if and only if it boots and the stored signatures differ, and it boots APP's image whenever APP is good and BAK's otherwise |
| Update.AfterPowerUp | src/main.c:325-346 | after an uncut power-up that boots, the stored signatures agree, the chip still starts, and APP, and BAK if they differed, holds the preferred image |
| Update.Updated | src/main.c:325-331 | one uncut power-up after an update of APP copies the new image to BAK, whatever was there unless it hangs or has the same signature, and the new firmware runs |
| Recovery.Contained | src/main.c:257-264 | no byte outside the target slot changes, wherever power fails and whether or not Ctrl-C stopped the erase |
| Recovery.EveryPiece | src/drivers/flash.c:436-448 | every program of a backup stays inside its page and takes at most 32 bytes |
| ImageBuilder.BuilderMeetsChecker | utils/genimg.py:7-24 | a built image is a multiple of 64 bytes, and the check accepts it if and only if it fits, with RAM equal to the zero-padded firmware |
| ImageBuilder.EncryptedMeetsChecker | utils/kflash.py:881-895 | an encrypted image is accepted if and only if it fits, and deciphers to the zero-padded firmware |
| ImageBuilder.Padded | utils/genimg.py:10-15 | the firmware stands at the beginning, only zeros follow it, and with the 37 other bytes the image is a multiple of 64 bytes |
| ImageBuilder.ImageBytes | utils/genimg.py:17-20 | the image byte by byte: the flag, the length from its lowest byte on, the body, and the hash of all that |
| ImageBuilder.FlagDecides | src/main.c:178 | whatever the other bits of the flag, an image is deciphered if and only if the lowest one is set |
| ImageBuilder.TwoCopies | utils/genimg.py:38 | filling with 0xFF puts the two copies at their slots |
| ImageBuilder.StageFileBoots | utils/genimg.py:32-38 | a chip that starts with the written file boots stage 2 as built, without a backup |
| ImageBuilder.WholeFileBoots | utils/genimg_whole.py:32-38 | a chip that starts with the written file boots the application as built, without a backup |
| SelfRepair.RunsBackup | src/main.c:332-336 | a built image in BAK runs at once when APP is damaged in any way that fails the check and changes the stored signature |
| SelfRepair.Repaired | src/main.c:332-346 | the first uncut power-up restores APP byte for byte, and later ones run the firmware from APP without writing |
| Shortfalls.RunsCiphertext | src/main.c:242-264 | with an encrypted image in APP and an erased BAK the first power-up copies the image and jumps to its ciphertext |
| Shortfalls.RunsPlainNext | src/main.c:319-346 | the power-up after that copy runs the zero-padded firmware |
| Shortfalls.DamagedCopyIsFatal | src/main.c:319-346 | with a built image in BAK and the same image but for one body byte in APP, the chip boots if and only if the hash does not notice, although BAK is good |
| Shortfalls.OddLengthHangs | src/main.c:201-210 | a well-signed encrypted body that is not whole blocks, in either slot, never lets the boot finish |
| SelfRepair.BootsMeanwhile | src/main.c:319-346 | however often power fails before that, the chip boots, and boots the built image unless a half-made copy passes the check |
| KermitDelivery.KDataDecodes | src/cli/load.c:202-217 | one data character extends the decoded file by one unquoting step and leaves the checkpoint alone |
| KermitDelivery.IntactEffect | src/cli/load.c:391-478 | an intact packet adds its decoded data once, after the checkpoint if it is a repetition |
| KermitDelivery.RejectedEffect | src/cli/load.c:384-467 | a packet rejected after its sequence number leaves exactly the data it started from, which becomes the checkpoint |
| KermitDelivery.UnreadEffect | src/cli/load.c:369-379 | a packet rejected on its length or sequence number rolls back to the checkpoint as it is |
| KermitDelivery.OneAttempt | src/cli/load.c:346-479 | the exact effect of one attempt on data, checkpoint, quote and last sequence number, whatever its fate and whatever came before |
| KermitDelivery.SessionExact | src/cli/load.c:346-479 | the exact effect of any packets with any attempts, whether they deliver or not |
| KermitLedger.CarriesExactly | src/cli/load.c:202-217 | a packet leaves the file unchanged if and only if it has no data for it |
| KermitLedger.SessionReads | src/cli/load.c:346-479 | after any session data and checkpoint are the decodings of two lists of packets that depend on sequence numbers and fates alone |
| KermitLedger.WantedReads | src/cli/load.c:202-217 | taking each packet once and in order is the decoding of the list of the packets sent |
| KermitLedger.LedgerExactly | src/cli/load.c:346-479 | after any session the list of packets held is the list sent, each once, in order and under the right quote, if and only if the account of the fates says so |
| KermitContents.ShapeDecides | src/cli/load.c:346-479 | the account does not depend on what data packets carry |
| KermitContents.WhateverTheyCarry | src/cli/load.c:346-479 | after the quote has been agreed on, a session brings in the right data whatever its packets carry if and only if the account says delivered |
| KermitSession.DeliveredExactly | src/cli/load.c:346-479 | when data and checkpoint agree at the start, then after any attempts whatever a packet's data is in the file exactly once if and only if the account says so |
| KermitSession.RepeatedExactly | src/cli/load.c:384-401 | a new data packet that arrives or is rejected under its own number any number of times counts if and only if the last attempt arrives or it adds nothing |
| KermitSession.SessionEffect | src/cli/load.c:346-479 | after every session that the account calls delivered each packet counts once and in order, with repetitions, rejections and noise between them |
| KermitSession.SessionFails | src/cli/load.c:346-479 | after every other session the receiver holds the decoding of a list of packets that is not the list sent |
| KermitSession.LostForGood | src/cli/load.c:384-467 | between packets no continuation delivers if and only if data and checkpoint are both spoilt |
| KermitSession.PatientSender | src/cli/load.c:384-401 | a sender that numbers consecutive packets differently and repeats each until its last attempt arrives has such a session |
| KermitSession.BreakEffect | src/cli/load.c:471-476 | a break packet that arrives at last ends a session that the account calls delivered, with every packet once and in order |
| KermitSession.RepetitionLosesData | src/cli/load.c:391-394 | an accepted packet is lost when a repetition of it arrives damaged and the sender goes on to the next |
| KermitSession.EarlyReject | src/cli/load.c:372-379 | a rejection on LEN or SEQ after a new packet takes that packet back, so that it counts if and only if it adds nothing |
| KermitSession.EarlyRejectHarmless | src/cli/load.c:372-394 | once an attempt of the same packet has passed its SEQ such a rejection changes nothing: the repetition that arrives counts once |
| KermitSession.LengthErrorLosesData | src/cli/load.c:372-373 | an accepted data packet is lost when the next length arrives as a control character and the sender goes on |
| KermitSession.WrongSequenceDoubles | src/cli/load.c:391-400 | a repetition rejected under a wrong sequence number makes the next repetition count a second time |
| KermitEncoding.ScanFramed | src/cli/load.c:97-140 | a packet framed by the reply code passes the receiver's own checks up to the end of line |
| KermitEncoding.ShortIntact | src/cli/load.c:369-462 | every well-formed short packet arrives intact |
| KermitEncoding.LongIntact | src/cli/load.c:410-434 | every well-formed long packet, with its own header check, arrives intact |
| KermitEncoding.ShortHeader | src/cli/load.c:369-409 | three printable characters with a length of at least 3 make a header of a short packet |
| KermitEncoding.LongHeaderRead | src/cli/load.c:410-434 | the header of every writable long packet, with its extended length and header check, is read as one |
| KermitEncoding.ControlCut | src/cli/load.c:369-379 | a control character in place of LEN or SEQ is a rejection before the sequence number, whatever noise follows |
| KermitEncoding.TypeRejected | src/cli/load.c:403-409 | a control character in place of the type is a rejection after the sequence number |
| KermitEncoding.LongLengthRejected | src/cli/load.c:411-423 | a control character in either character of the extended length is a rejection |
| KermitEncoding.HeaderCheckRejected | src/cli/load.c:424-431 | any other character than the header check is a rejection |
| KermitEncoding.WrongCheckRejected | src/cli/load.c:453-458 | any other character than the block check is a rejection, after a short or a long header |
| KermitWire.CheckMasks | src/cli/load.c:104 | the check of any sum is `(sum + ((sum >> 6) & 3)) & 0x3f`, with the AND taken bit by bit |
| KermitWire.CheckNotices | src/cli/load.c:453-458 | the check changes with any single bit of any character it covers |
| KermitWire.DataFlipRejected | src/cli/load.c:434-458 | one flipped bit in the data of any packet, short or long, is a rejection |
| KermitWire.CheckFlipRejected | src/cli/load.c:453-458 | one flipped bit in the block check is a rejection |
| KermitWire.ShortFlipRejected | src/cli/load.c:396-458 | one flipped bit anywhere in a short packet after its length and sequence number is a rejection |
| KermitWire.LongHeaderFlipRejected | src/cli/load.c:396-431 | one flipped bit in the header of a long packet after its sequence number is a rejection |
| KermitEncoding.ControlRejected | src/cli/load.c:437-439 | a control character among the data or in place of the check is a rejection, after a short or a long header |
| KermitEncoding.WrongEndRejected | src/cli/load.c:459-467 | anything but CR at the end of a packet is a rejection, after a short or a long header |
| KermitEncoding.FileRoundTrip | src/cli/load.c:87-95 | a file encoded by control-character prefixing decodes to itself under a quote that is not translated |
| KermitEncoding.StableQuotes | src/cli/load.c:87-95 | the printable quotes that are not translated are all but question mark and 0x40 to 0x5F |
| KermitEncoding.Transparent | src/cli/load.c:202-217 | every file survives if and only if the quote is not translated |
| KermitEncoding.EncodedPrintable | src/cli/load.c:436-439 | the encoded file contains no character that the receiver rejects |
| KermitDownload.CutAnywhere | src/cli/load.c:436-452 | wherever the data is cut into packets, even after a quote, it decodes as one piece |
| KermitDownload.Download | src/cli/load.c:312-480 | a send-initiate packet, the encoded file in any packets, and a break, in any session that the account calls delivered, leave exactly the file and return its length |
| KermitReceiver.Receiver.constructor | src/cli/load.c:142-147 | a receiver at the start of a line, with its two buffers |
| KermitReceiver.Receiver.KDataSave | src/cli/load.c:190-194 | checkpoints escape and address |
| KermitReceiver.Receiver.KDataRestore | src/cli/load.c:196-200 | rolls escape and address back |
| KermitReceiver.Receiver.KDataChar | src/cli/load.c:202-217 | unquotes one character into memory as the machine does |
| KermitReceiver.Receiver.Chk1 | src/cli/load.c:97-105 | sums up to the terminating NUL and folds the sum into the type 1 check |
| KermitReceiver.Receiver.S1SendPacket | src/cli/load.c:107-113 | sends the padding asked for and the characters before the NUL |
| KermitReceiver.Receiver.SendReply | src/cli/load.c:115-140 | acknowledgement and negative acknowledgement are the framed reply of the machine |
| KermitReceiver.Receiver.Crack | src/cli/load.c:239-298 | as many parameters are taken and answered as the sender gave, with defaults for the others |
| KermitReceiver.Receiver.Negotiate | src/cli/load.c:225-298 | the parameters set and the parameters offered are those of the machine |
| KermitReceiver.Receiver.HandleSendPacket | src/cli/load.c:225-309 | the negotiated parameters and the acknowledgement are those of the machine |
| KermitReceiver.Receiver.ReadLength | src/cli/load.c:369-375 | reads the length, or rejects, or stays silent, as the machine does |
| KermitReceiver.Receiver.ReadSequence | src/cli/load.c:376-400 | reads the sequence number and checkpoints or rolls back |
| KermitReceiver.Receiver.ReadType | src/cli/load.c:403-434 | reads the type and, for length zero, the long header |
| KermitReceiver.Receiver.ReadExtended | src/cli/load.c:411-434 | reads the extended length and its header check |
| KermitReceiver.Receiver.TakeData | src/cli/load.c:442-451 | a data character goes to the file or, capped, to the parameter buffer |
| KermitReceiver.Receiver.ReadData | src/cli/load.c:436-452 | reads the data characters up to the check |
| KermitReceiver.Receiver.ReadCheck | src/cli/load.c:453-458 | compares the block check |
| KermitReceiver.Receiver.PacketError | src/cli/load.c:462-467 | restores type and data and answers with a negative acknowledgement |
| KermitReceiver.Receiver.Answer | src/cli/load.c:459-477 | what follows the check: rejection, negotiation or acknowledgement, and the end of the session |
| KermitReceiver.Receiver.AwaitStart | src/cli/load.c:356-367 | skips noise until a packet starts or ^C comes |
| KermitReceiver.Receiver.KRecv | src/cli/load.c:312-480 | on every input the imperative receiver returns, writes to memory and sends exactly what the machine does |
| KermitReplies.ReplyWellFormed | src/cli/load.c:225-309 | a reply's LEN counts the characters after it, it has no NUL, fits the 24-byte buffer and passes the receiver's own test |
| KermitReplies.RepliesWellFormed | src/cli/load.c:97-140 | after any input each character is answered by at most one packet, and that is well formed |
| KermitReplies.SequenceRange | src/cli/load.c:381 | every reachable sequence number can be written as one character |
| KermitWire.PacketAnswered | src/cli/load.c:115-125 | an intact packet is answered by padding, a packet that the receiver's own checks read as an acknowledgement of its number, and the end of line |
| KermitWire.SendAnswered | src/cli/load.c:225-309 | an intact send-initiate packet is answered in the same way with the parameters offered, and the padding, end of line and quote it announced hold from then on |
| KermitWire.RejectionAnswered | src/cli/load.c:128-140 | a rejected packet is answered by a packet that reads as a negative acknowledgement of the number it came with |
| KermitWire.Negotiation | src/cli/load.c:230-265 | what a sender announces is taken over parameter by parameter; what it leaves out keeps its default |
| KermitWire.OfferMeans | src/cli/load.c:242-292 | the offer says 94 characters, one second, no padding, CR, `#`, no prefixing, check type 1, long packets of up to 9024 characters and no windows |
| KermitWire.OfferedExactly | src/cli/load.c:236-292 | the offer has as many parameters as the announcement, up to nine; to a longer one it is whole |
| KermitWire.Interruption | src/cli/load.c:357-367 | a ^C after any noise between packets ends the call with 0 |
| KermitWire.BreakOnTheWire | src/cli/load.c:97-140 | break packet, acknowledgement and negative acknowledgement with number 0, character by character |
| KermitWire.BreakAlone | src/cli/load.c:312-480 | a break packet alone ends a call with an empty file and one acknowledgement on the line |
| KermitWire.LongOnTheWire | src/cli/load.c:404-431 | the header of a long packet with 94 characters of data, character by character |
| Pll.SplitExact | src/drivers/sysctl.c:911-944 | both refactoring branches keep NF/(NR*OD) equal to nfi/nr and fit the divider fields |
| Pll.Refactor | src/drivers/sysctl.c:902-944 | the divisor loop and the two branches compute that split |
| Pll.FindDividers | src/drivers/sysctl.c:864-995 | the nested loops compute the search over all feedback dividers, for every request |
| Pll.TrialSound | src/drivers/sysctl.c:885-962 | what a round offers can be programmed, and its error is exactly the relative error of the output |
| Pll.ChosenSound | src/drivers/sysctl.c:835-995 | on success NR, NF, OD and NB fit their fields, VCO and reference are in range and the output is within a 64th of the request, which is at most 1.75 GHz |
| Pll.FoundIffFeasible | src/drivers/sysctl.c:885-985 | something is found if and only if some round is feasible on its own |
| Pll.ChosenComplete | src/drivers/sysctl.c:885-995 | the search fails if no round is feasible, and succeeds if the first feasible one is within 1.5623 percent, with a reference divider no larger than that one's |
| PllBest.DividerLarge | src/drivers/sysctl.c:904-936 | the output divider is the largest by which the ratio can be scaled up, or keeps the oscillator in the upper half of its range |
| PllBest.ReferenceLeast | src/drivers/sysctl.c:904-945 | a round that does not scale up takes at least as much out of the reference divider as any divisor in range can |
| PllBest.HalfIsEnough | src/drivers/sysctl.c:922-946 | 7 goes out of the reference divider as 14 in the output divider when the oscillator may run 28 times as fast as the output |
| PllBest.TrialExactly | src/drivers/sysctl.c:885-960 | a round without scaling offers its split if and only if the request is no faster than the oscillator, the ratio is near enough, the reference is in range and the hardware accepts the split |
| PllBest.NoBetterRound | src/drivers/sysctl.c:885-980 | after a round and any later ones the best error is at most that of the round, up to a millionth of the tolerance for each, if its reference divider is at most the best one's |
| PllBest.ChosenBest | src/drivers/sysctl.c:885-995 | no round without scaling and with a reference divider at most the chosen one's comes closer to the request by more than about a millionth of it |
| PllBest.FourHundred | src/drivers/sysctl.c:885-995 | 400 MHz from 26 MHz gives NR 1, NF 46 and OD 3 |
| PllBest.OneHundredNine | src/drivers/sysctl.c:964-967 | 109 MHz from 26 MHz gives NR 1, NF 63 and OD 15: of two rounds that are equally near, the one with the larger output divider |
| Pll.ReadBack | src/drivers/sysctl.c:778-783 | the registers hold the dividers and the frequency read back is the request up to a 64th and rounding |
| Pll.Sysctl.PllGetFreq | src/drivers/sysctl.c:734-784 | reads the dividers of one PLL and computes FIN / NR * NF / OD |
| PllBest.OutputAt | src/drivers/sysctl.c:734-784 | the registers 0, 59 and 1 read back as 780 MHz from 26 MHz |
| Pll.Sysctl.PllSourceSetFreq | src/drivers/sysctl.c:786-1050 | for every PLL, source and request: returns 0 and changes nothing, or programs this PLL alone with dividers the hardware accepts; which of the two is decided by the search |
| Ecc.Ecc | utils/adjhex.py:11-27 | the 64-step loop computes the check byte |
| Ecc.CheckOfFlip | utils/adjhex.py:24-26 | one flipped data bit changes the check by its column |
| Ecc.UnnoticedIff | utils/adjhex.py:11-27 | any flips of the 72 bits go unnoticed if and only if their columns cancel, whatever the word |
| Ecc.ColumnsOdd | utils/adjhex.py:13-22 | every column has odd weight |
| Ecc.ColumnsDistinct | utils/adjhex.py:13-22 | the 72 columns are different from each other |
| Ecc.OddFlipsRejected | utils/adjhex.py:11-27 | every odd number of flips is rejected |
| Ecc.FewFlipsRejected | utils/adjhex.py:11-27 | any one, two or three flips of the 72 bits are rejected |
| Ecc.FourFlipsPass | utils/adjhex.py:13-22 | four particular flips pass in every word, so the distance is four |
| Ecc.ParityMasks | utils/adjhex.py:11-27 | each check bit is the parity of the data bits in one of eight masks, inverted for bits 2 and 3 |
| Mixer.ShiftFormsAgree | utils/memmixer.py:15-35 | the mask-and-shift form and the byte-swap form agree on every 72-bit value |
| Mixer.ReverseUndone | utils/memmixer.py:15-20 | the reversal is its own inverse |
| Mixer.PairMoved | utils/memmixer.py:15-20 | the pair at bit i moves to bit 70 - i |
| Mixer.ReverseNormal | utils/memmixer.py:42-46 | the pairwise loop computes the same reversal |
| Crc16.Lookup | src/cli/crc16.c:116-119 | one table lookup does the work of eight bit-serial steps |
| Crc16.Table.InitEntry | src/cli/crc16.c:75-88 | a table entry is the register after eight bits |
| Crc16.Table.InitCrc16Tab | src/cli/crc16.c:68-93 | fills all 256 entries |
| Crc16.Table.Crc16 | src/cli/crc16.c:103-123 | the table CRC of any byte string is the bit-serial CRC with reflected polynomial 0xA001 and start 0, and 0 for a null pointer |
| Crc16.ResidueIff | src/cli/crc16.c:103-123 | two bytes after a message bring the CRC to 0 if and only if they are its CRC, low byte first |
| Crc16.BurstDetected | src/cli/crc16.c:103-123 | any error burst of at most 16 bits changes the CRC |
| Crc16.CheckValue | src/cli/crc16.c:103-123 | the digits `123456789` have the CRC 0xBB3D |
| Slip.TwoReplacementsEscape | utils/kflash.py:475-478 | the two replaces in this order escape each byte once, as in RFC 1055 |
| Slip.OnTheLine | utils/kflash.py:475-478 | C0 DB 01 is written as C0 DB DC DB DD 01 C0 |
| Slip.RoundTrip | utils/kflash.py:281-314 | every list of packets comes back as it was written |
| Slip.RunExplained | utils/kflash.py:292-314 | a reader that has not failed can have read only one stream |
| Slip.AcceptsExactly | utils/kflash.py:281-314 | the reader delivers a list of packets if and only if the stream is what `write` emits for that list |
| Slip.SlipReader.constructor | utils/kflash.py:281-284 | a generator before its first packet |
| Slip.SlipReader.ReadByte | utils/kflash.py:286-290 | the next character, however the port cuts up its reads |
| Slip.SlipReader.Take | utils/kflash.py:295-314 | one character's effect on the partial packet |
| Slip.SlipReader.Next | utils/kflash.py:281-314 | the packets of the stream come out one by one however it is split into reads, and an exception is raised only when there is no further one |
| Numbers.NumeralUnique | src/bsp/printf.c:127-132 | a number has only one numeral without leading zeros |
| Numbers.TopDivisor | src/bsp/printf.c:124-126 | the product never leaves the word and ends at the largest power not above the number, below base to the 20 |
| Numbers.Param.PutDigits | src/bsp/printf.c:127-133 | the digit loop writes at most 20 digits, none leading zero but for 0 itself, with the number as value |
| Numbers.Param.Ulli2a | src/bsp/printf.c:117-134 | prints the numeral of the number, or nothing for 0 with precision 0 |
| Numbers.Param.Lli2a | src/bsp/printf.c:136-143 | sets the sign and prints the magnitude, also of the most negative number |
| Numbers.ParseIntegerFixupRadix | src/bsp/strto.c:32-46 | finds base and prefix |
| Numbers.SimpleStrtoul | src/bsp/strto.c:48-67 | reads the longest run of digits, modulo 2^64, and where it ends |
| Numbers.PrintParse | src/bsp/strto.c:48-67 | what is printed in base 8, 10 or 16 is read back as the same number, in base 10 also without giving the base |
| Numbers.AlternateHexParse | src/bsp/strto.c:35-44 | a number printed with its 0x prefix is read back with base 16 or none |
| Numbers.AlternateOctalParse | src/bsp/strto.c:35-41 | a number printed with its leading 0 is read back without a base |
| Numbers.PrefixAlone | src/bsp/strto.c:32-46 | `0x` without a hexadecimal digit after it is an octal 0 that ends before the x, or with base 16 is skipped |
| Numbers.OctalEnds | src/bsp/strto.c:32-46 | after a leading zero 8 and 9 end the number |
| Formatting.FieldWidth | src/bsp/printf.c:230-285 | a field is as wide as asked or as its content needs if and only if the remaining width does not wrap in its `int` |
| Formatting.ContentIs | src/bsp/printf.c:243-252 | the content is sign, prefix and the longer of precision and text |
| Formatting.LeastWidthWraps | src/bsp/printf.c:239 | at the least width any text comes out 2^31 characters wide |
| Formatting.Sink.Put | src/bsp/printf.c:531-537 | a bounded sink keeps the first characters that fit and counts all of them; an unbounded one keeps all |
| Formatting.Sink.Putchw | src/bsp/printf.c:230-285 | blanks, sign, prefix, zeros, text and blanks come out in this order |
| Formatting.DecimalExactly | src/bsp/printf.c:214-228 | what `a2u` reads is the decimal number that stands there, modulo 2^32, if and only if no `a` or `A` follows its digits |
| Formatting.WidthTwenty | src/bsp/printf.c:220 | the width of `%1ad` is 20 and its conversion is `d` |
| Formatting.ReadNumber | src/bsp/printf.c:214-228 | the value modulo 2^32 of the longest run of decimal digits and `a` or `A`, and the character after it; when that is the decimal number |
| Formatting.FlagsRead | src/bsp/printf.c:311-327 | the flags are those among the characters up to the first that is none |
| Formatting.ReadDirective | src/bsp/printf.c:300-397 | flags, width, precision and length of one directive, as the parser specified by `Directives.DirectiveRead` gives them |
| Directives.DirectiveRead | src/bsp/printf.c:300-397 | a directive put together from flags, width, precision (numbers, `*` or a dot alone), length modifier and conversion is read as these, wherever it stands and whatever follows; width and precision wrap into an `int`; `-`, also from a negative `*`, and a precision act on a leading zero as in the source |
| Directives.WidestField | src/bsp/printf.c:230-285 | `%2147483648u` writes 2^31 characters for any 32-bit number |
| Formatting.ConvertNumber | src/bsp/printf.c:401-479 | the number's text, sign and base |
| Formatting.PutString | src/bsp/printf.c:483-493 | a string as far as its NUL and the precision, in its field |
| Formatting.PutConversion | src/bsp/printf.c:398-499 | one conversion character |
| Formatting.TfpFormat | src/bsp/printf.c:287-503 | what reaches the sink depends on format and arguments only |
| Formatting.TfpVsprintf | src/bsp/printf.c:581-589 | the whole text, a NUL, and its length |
| Formatting.TfpVsnprintf | src/bsp/printf.c:539-557 | never writes past size, holds the first min(n, size - 1) characters of what `tfp_vsprintf` writes and a NUL, and returns n; size 0 returns 0 |
| Formatting.FormatThenParse | src/bsp/printf.c:401-472 | a 64-bit number formatted with `%lu` or `%#lx` is read back by `simple_strtoul` |
| Printing.SpaceFilled | src/bsp/printf.c:255-284 | without zero filling a field is blanks before the unfilled field, or behind it with `-` |
| Printing.ZeroFilled | src/bsp/printf.c:269-279 | with zero filling the zeros stand between sign and prefix and the text |
| Printing.FieldReads | src/bsp/printf.c:230-285 | for every width, precision, sign and prefix, what follows blanks, sign and prefix in a number's field is read back by `simple_strtoul` as the number |
| Formats.FormatMeans | src/bsp/printf.c:287-503 | what is written for a format is what its texts and directives show, one after another, each with the arguments that those before it left |
| Formats.NumberSpelled | src/bsp/printf.c:230-285 | a number's field for every width, precision, sign and flag, character by character |
| Formats.ConvertSigned | src/bsp/printf.c:425-445 | `%d` and `%i` of any length show a minus sign exactly for negative numbers, and the magnitude in base 10 |
| Formats.ConvertUnsigned | src/bsp/printf.c:401-479 | `%u`, `%x`, `%X`, `%o` and `%p` show the argument as unsigned in base 10, 16 or 8, `%p` with its prefix |
| Formats.SignedShown | src/bsp/printf.c:425-445 | without width and precision `%d` writes the sign and the decimal numeral |
| Formats.UnsignedShown | src/bsp/printf.c:401-479 | without width and precision the other conversions write the numeral, after `0x`, `0X` or `0` if asked for |
| Formats.OtherShown | src/bsp/printf.c:480-499 | `%c` writes one character, `%%` a percent sign, and anything else nothing and takes no argument |
| Formats.StringShown | src/bsp/printf.c:483-493 | `%s` writes the string up to its NUL or the precision, filled with blanks to the width |
| Formats.AddressShown | src/bsp/printf.c:230-285 | `0x%08X` of 0x30000 writes 0x00030000 |

## Left out

- Recovery.CutBootsKeep: does not cover Ctrl-C during an erase, because `flash_image_backup` ignores the early return of
  `do_flash_erase` and programs over sectors that were not erased; `Recovery.Contained` and `Boot.Loader.PowerUp` do
  cover it.
- Recovery.SameFirmware: assumes that no half-written copy passes the hash check, which an uninterpreted hash cannot
  exclude.
- KermitSession.SessionEffect: an attempt is a whole packet, a packet rejected somewhere, or noise; an attempt that
  stops in the middle so that the next start is taken into it, damage that the check does not notice, and ^C are not
  among the attempts. `KermitReceiver.Receiver.KRecv` covers every input.
- KermitLedger.LedgerExactly: is about lists of packets. The data of two different lists may be the same by coincidence,
  as when a lost packet and a doubled one carry the same; `KermitContents.WhateverTheyCarry` is about the data itself,
  and `KermitSession.DeliveredExactly` about the data of one packet.
- KermitContents.WhateverTheyCarry: starts where data and checkpoint agree and no character is quoted, as after the
  send-initiate packet, and has no packet that changes the quote.
- KermitReceiver.Receiver.KRecv: RAM from the load address on has no end, so a file that runs into other memory is not
  modelled; a line that falls silent ends the call with `Waiting`, where the source blocks in `uart_getc`.
- Pll.FindDividers: doubles are reals, so rounding is not modelled. C leaves the remainder by zero (a request above 1.75
  GHz) undefined, and so conversions to `int` and `uint32_t` that do not fit; they are modelled as the K210's
  instructions do them.
- Pll.Sysctl.PllSourceSetFreq: with the request 0, which `sysctl_pll_set_freq` keeps away from it, every error is
  infinite or not a number, so that nothing is found; that is modelled by its outcome.
- Pll.ChosenComplete: between 1.5623 and 1.5625 percent the outcome depends on later rounds, each of which may spoil the
  error by a millionth; the search function itself says exactly what happens.
- Formatting.TfpFormat: an argument that is missing or of the wrong kind reads as 0 or as the empty string, where C
  leaves it undefined; `int` arithmetic on width and precision wraps, where C leaves it undefined; the count is not cut
  to an `int`.
- Directives.DirectiveRead: leaves out what cannot be told from something else, such as a conversion character that
  `a2u` takes for one more digit; `Formatting.DecimalExactly` is about those.
- KermitWire.ShortFlipRejected: leaves out a flip in LEN, which moves the end of the packet, and in SEQ, which is
  rejected under another number.
- PllBest.ChosenBest: rounds that scale the ratio up are not compared, because the source takes them only as long as
  nothing has been found; and a smaller error with a larger reference divider is turned down by the source.
- Printing.FieldReads: not for 0 with precision 0, which has no digits to read.
- Numbers.SimpleStrtoul: the string is given with its terminating NUL, and `endp` is always wanted.
- Boot.Loader.FlashImageCheck: the loop that never ends is the verdict `Runaway` instead of a loop that never ends.
- Other targets: `char` is unsigned and `long` has 64 bits, as on the K210.
- SPI registers, FIFO levels, status polling and timeouts: each completed chip command is one atomic step.
- The chip has 24 address bits, so addresses are reduced modulo 2^24 and their wrap-around at 2^32 makes no difference.
- AES, SHA-256 and OTP hardware and the tables of the AES class in `kflash.py`: an arbitrary invertible block function
  and an uninterpreted hash.
- The rotation form of `_BYTESWAP`: bytes are swapped by position.
- The byte order and reading of the accelerator's result registers: part of the uninterpreted hash.
- `flash_firmware` at `utils/kflash.py:900` sends the bare firmware and not the image with header built before it; the
  model is of the image.
- The two-core handoff in `go_boot`, console output and the command line interface.
- `recv_one_return` in `kflash.py`, which appends the raw character after unescaping and does not undo `write`.
- Pin mux, interrupt, timer and UART drivers, misaligned access emulation, trap entry, linker script and build files.
