# Secure dual-bank bootloader: a verified model

A Dafny model of a dual-bank firmware bootloader for the STM32F407: its boot state machine, the
persisted boot configuration, the OTA protocol between the host's sender and the device's receiver,
the in-place delta update, and the byte-level algorithms underneath (CRC-32, SHA-256, the signature
range check, the NOR flash driver). `dafny verify dfyconfig.toml` checks all of it.

The state of the device is its flash (`Layout.Memory`, one mebibyte), the boot configuration decoded
from it, the handoff block in SRAM, and the receiver's session. Code that works step by step is
modelled as classes and methods over arrays and fields; what it computes is a function of the flash
and the configuration, or a relation between the states before and after, and the properties of whole
runs are lemmas about those.

| module | models |
|---|---|
| `Bytes` | fixed-width integers, byte strings, overwriting a stretch of bytes |
| `Crc32` | the bitwise reflected CRC, its error detection, and its polynomial meaning (IEEE 802.3, section 3.2.9) |
| `Crc32Reference` | the published check value of the checksum |
| `Sha256` | the buffered hash against FIPS 180-4 (sections 4.1.2, 5.1.1, 5.3.3 and 6.2.2) |
| `Primes` | the first primes, by how many come before them |
| `Sha256Reference` | what pins the hash down from outside: its constants as roots of primes, its padding, and the published digest of "abc" |
| `LowS` | the byte-wise borrow chain that decides the canonical range of a signature |
| `Layout` | partitions, sector tables, what erasing a range hits |
| `Flash` | the flash driver over an abstract NOR array whose controller may misbehave |
| `FirmwareImage` | the image header, and the host tools that build and take apart images |
| `Crypto` | firmware verification with ECDSA as an oracle, and the signing tool |
| `BootConfig` | the configuration record, save and load, power cuts, recovery, the anti-downgrade floor |
| `Boot` | confirmation, the OTA swap, slot picking, one boot |
| `BootRuns` | properties over runs of boots |
| `BootExact` | when exactly a pending image boots, what counts as a confirmation, where boots go when a slot is bad |
| `Frame` | the wire format: printer, reader, responses |
| `Delta` | the delta callbacks and the refinement of a pure patch |
| `DeltaScript` | what the pure patch comes to: the stream delivers the patch, and an edit script produces what it spells out |
| `OtaClient` | the receiver's handlers and its loop |
| `Answers` | for each frame, exactly when it is acknowledged, and when the loop ends |
| `Transfers` | what every sequence of frames keeps |
| `Channel` | the lossy link, the protocol invariant, sender, link and receiver together |
| `OtaServer` | the sender's methods, with the receiver of `OtaClient` at the far end |
| `Delivery` | over a link that loses nothing, images and deltas go through to the acknowledged END, and signed ones run after the reset |
| `EndToEnd` | from the signing tool to the running image |
| `Recovery` | what the base of a delta can be in recovery mode |

## Reading guide

**What fixes the definitions.** A method is proved against a function of its inputs, and such a function
could be wrong together with the method. So each has lemmas about it that do not go through it: published
values (`Crc32Reference.CheckValue`, `Sha256Reference.AbcDigest`), the definition of its constants
(`Sha256Reference.ConstantsAreCubeRoots`), the bytes of its formats (`BootConfig.RecordLayout`,
`FirmwareImage.HeaderLayout`, `Frame.WireLayout`), conditions on numbers and bytes that decide it in both
directions (`Crypto.VerifyDecides`, `BootConfig.AllowedExactly`, `BootExact.SwapDecided`, the lemmas of
`Answers`), and runs that succeed (`DeltaScript.ScriptApplied`,
`Delivery.SignedPayloadGoesThrough`, `Delivery.SignedDeltaGoesThrough`).

**Flash.** Every erase or program pulse may leave any content in the cells it addresses and report
any status; the driver's own readback is what establishes the result. `Nor.faulty` is set only by the
controller's part, so "fails only when the controller did" is part of the contracts. `Nor.log` records
each image the flash passes through: those are the states a power cut can leave.

**Geometry.** What an erase reaches depends on how the sectors lie across the partitions, and the
shipped table puts the configuration and slot A into one sector and the tail of slot A and the head of
slot B into another. `Layout.EraseSparesIffSeparate` shows that sharing no sector is exactly what
preservation under erase takes, and theorems name the ranges that have to share none: nothing for the
floor over runs; that one slot is away from the configuration (`AwayFromConfig`) for a swap into it;
that both are (`ConfigAway`) for rollback and for what a boot decides; that erasing the new slot spares
the other (`RunningSpared`) for what a transfer leaves of the image there. A session's aim counts
(`Transfers.Aimable`) when both slots are away from the configuration, or when the record lies in one
sector and no flash operation has failed. A part whose sectors follow the partitions meets all of this
(`Layout.PartitionedTableIsolated`, `Transfers.IsolatedSparesRunning`). The shipped one does not
(`Layout.ShippedTableNotIsolated`), but its record lies in one sector and its slot B is away from it
(`Layout.ShippedSlotBAwayFromConfig`): pushes and deltas into slot B are covered, and the lemmas named
`Shipped...` say what becomes of everything else there.

**What runs when.** The receiver is entered from recovery mode only (`bootloader/src/main.c:243-245`),
when with a well-formed identifier neither slot verifies
(`BootRuns.RecoveryMeansNothingVerifies`). "The running slot" in the receiver's terms is the slot of the
active identifier, the base of a delta, whether or not anything ran from it.

**Oracles.** ECDSA verification, the curve check and the embedded key are a `Trust` value. The patch
library and the decompressor are a `Delta.Patcher`: any deterministic strategy that sees only what the
callbacks return, taken for any number of steps.

**The link.** Frames travel through a FIFO from which any frame can be lost, and the head can arrive
damaged; responses can be lost or late. At any time the receiver may give up or the device be reset,
after which it is idle with arbitrary flash and SRAM. What an earlier transfer left in flight may still
arrive, an END or an ABORT among it. `Channel.Inv` holds in every reachable state.

Where the code and its documentation differ, the model follows the code:

- The slot is switched at three counted attempts (`bootloader/src/main.c:170`), where comments and
  `docs/architecture.md:81` say more than three.
- A recorded version below v1.0.0 that raises the floor raises it to v1.0.0, since the counter is at
  least 1 (`bootloader/src/boot_config.c:131-132`); `BootConfig.FloorOf` is that function.
- `docs/architecture.md:164-174` admits that erasing the configuration hits slot A. The tail of slot A
  also shares a sector with the head of slot B (`Layout.ShippedSlotBEraseHitsSlotA`), so
  `docs/security_analysis.md:50`, by which an update never modifies the active slot, holds only as far as
  `Transfers.ShippedStartIntoSlotBKeepsImage` says.
- `docs/update_protocol.md:42` has the host take a delta's base digest from the signed baseline image. The
  receiver is entered only where such an image, had it verified, would have been booted instead; when its
  digest can match all the same is what `Recovery.DeadBasesExactly` and `Recovery.ShippedDeadBasesExactly`
  say.

Properties that fail of the code, with their exact condition:

- Slot picking enters recovery mode exactly when neither slot verifies, if and only if the stored
  identifier is `A` or `B`, or slot A verifies and the identifier is not one that reads as recovery mode
  (0, with fewer than three attempts), or neither slot verifies (`BootRuns.PickRightExactly`). Any
  identifier can be stored in a valid record (`BootRuns.AnyIdentifierCanBeStored`). The next three items
  are about well-formed identifiers, `A` or `B`.
- What a boot jumps to verified when it was picked, and still does after the save that follows if that slot
  is away from the configuration (`BootRuns.BootsOnlyPermitted`). On the shipped part it does if and only if
  it is slot B: the save erases the head of slot A (`BootRuns.ShippedJumpVerifiesExactly`).
- Nor is there rollback on the shipped part: in a series of resets, from the second one on slot B is booted
  if it verifies, and recovery mode entered if not, whatever was counted, confirmed or pending
  (`BootRuns.ShippedRebootsSlotB`).
- In recovery mode neither slot verifies, and a delta is accepted as the first thing only against an image
  that does not. Later frames can bring one that verifies under it. With the inactive slot away from the
  configuration and no flash failures, every delta accepted has a base that does not verify if and only if
  no START can erase its way to one that does (`Recovery.DeadBasesExactly`). On the shipped part, with any
  image at all that the key accepts, that is so if and only if slot A is active when recovery begins and
  would not verify with its last 16 KB erased (`Recovery.ShippedDeadBasesExactly`). With slot B active, a
  START wipes the record, the image stored in slot A then makes that the active one, and a delta against it
  is accepted (`Recovery.ShippedUploadRevivesBase`).
- The device hashes the same delta base as the host if and only if the size field does not overflow
  (`Delta.BaseIsLogical`).
- A rejected START is sure to leave an open session what it stored if and only if no stored byte lies in
  a sector that the START erases (`Transfers.RejectedStartKeepsStoredExactly`, and for logs of frames
  `Transfers.NextStartHarmlessExactly`).
- Power failing in a save lowers the floor found at the next reset if and only if bytes of the record
  are missing that are not 0xFF anyway, and the highest version that verifies after the cut has a lower
  floor than the boot found (`BootRuns.CutStep`). On the shipped part that happens: after a save cut before
  its magic is in place, the floor found is that of slot B, or 0 (`BootRuns.ShippedCutLosesFloor`).
- An accepted START leaves the image in the other slot, for a delta the base it just checked, as it is
  if and only if its erase reaches only bytes of that image that are 0xFF
  (`Transfers.StartKeepsImageExactly`). On the shipped part a START into slot B keeps an image in slot A
  if and only if that ends before the last 16 KB of the slot or is blank there
  (`Transfers.ShippedStartIntoSlotBKeepsImage`), and a START into slot A keeps an image in slot B if and
  only if it erases at most 444 KB (`Transfers.ShippedStartIntoSlotAKeepsImage`).
- A delta whose START erases the header of its own base is never accepted while flash operations succeed
  (`Transfers.DeltaWithoutBaseRejected`). That is every delta with coinciding slots, and on the shipped
  part every delta except one from slot A into slot B (`Transfers.WhoErasesItsBase`).
- A damaged frame with its length field intact passes if and only if the damage leaves an empty CRC
  register empty (`Frame.DamageSeenExactly`); no burst of up to 32 bits does.
- Two messages that differ within 33 bits have the same CRC-32 if and only if they are equal or differ
  by the generator itself (`Crc32.GeneratorBurstUndetected`; `Crc32.CollidingPair` is such a pair).

## Model

| member | source | states |
|---|---|---|
| Crc32.Update | bootloader/src/crc32.c:13-24 | the nested loops absorb the data into the register as the mathematical step function does, for every length |
| Crc32.MaskedShift | bootloader/src/crc32.c:19-20 | the negated-bit mask selects the polynomial exactly when the low bit is set |
| Crc32.AbsorbConcat | bootloader/src/crc32.c:13-24 | feeding a message in pieces gives the same register as feeding it whole |
| Crc32.BurstDetected | bootloader/src/crc32.c:13-29 | two different messages of the same length whose differing bits fit in 32 bits have different checksums |
| Crc32.SealedExactly | bootloader/src/ota_client.c:123-130 | a message is followed by its checksum if and only if the register run over both ends in one fixed value |
| Crc32.DamagePassesExactly | bootloader/src/ota_client.c:123-130 | damage to a message with its checksum, anywhere in the two, goes unseen if and only if the difference leaves an empty register empty |
| Crc32.SealedBurstDetected | bootloader/src/ota_client.c:123-130 | a burst of up to 32 bits in a message with its checksum is seen, also when it straddles the two |
| Crc32.GeneratorBurstUndetected | bootloader/src/crc32.c:13-29 | two messages of the same length that differ within 33 bits have the same checksum if and only if they are equal or their difference is the generator itself |
| Crc32.CollidesIffZero | bootloader/src/crc32.c:13-29 | checksums of equal-length messages agree if and only if their difference leaves an empty register empty |
| Crc32.CollidingPair | bootloader/src/crc32.c:13-29 | a concrete pair: five zero bytes and the generator written out |
| Crc32.GeneratorTerms | bootloader/src/crc32.c:20 | the constant 0xEDB88320 has exactly the terms of the IEEE 802.3 generator |
| Crc32.ChecksumIsPolynomialRemainder | bootloader/src/crc32.c:26-29 | the checksum is the complemented remainder of the complemented-head message times x^32 modulo the generator |
| Crc32Reference.CheckValue | bootloader/src/crc32.c:13-29 | the checksum of the nine digits "123456789" is the published check value 0xCBF43926, which fixes the order of the bits and both complements |
| Crc32.RunIsResidue | bootloader/src/crc32.c:13-24 | the register after a bit string is the remainder of its polynomial |
| Crc32.ShiftInjective | bootloader/src/crc32.c:19-20 | the register step loses no information |
| Sha256.PadInjective | bootloader/src/sha256.c:93-117 | different messages have different paddings |
| Sha256Reference.ConstantsAreCubeRoots | bootloader/src/sha256.c:22-34 | the constant of round t is the first 32 bits of the fractional part of the cube root of the prime with t primes before it (section 4.2.2 of FIPS 180-4), for all 64 rounds |
| Sha256Reference.InitialWordsAreSquareRoots | bootloader/src/sha256.c:70-77 | the initial words are the same for the square roots of the first eight primes (section 5.3.3 of FIPS 180-4) |
| Primes.SievedIsPrime | bootloader/src/sha256.c:22-34 | what sieving by the numbers up to 17 takes for primes below 324 are the primes, by the definition of a prime |
| Sha256Reference.PadMeans | bootloader/src/sha256.c:93-117 | the padding is a one bit, the fewest zeros that fill the last block, and the length of the message in bits as a 64-bit big-endian number |
| Sha256Reference.AbcDigest | bootloader/src/sha256.c:36-128 | the digest of "abc" is the published one, worked out word by word and round by round |
| Sha256Reference.FeedForward | bootloader/src/sha256.c:60-63 | after any earlier blocks, one more block adds the result of its 64 rounds to the eight words it started from |
| Sha256.Context.constructor | bootloader/src/sha256.c:66-78 | a fresh context stands for the empty message |
| Sha256.Context.Expand | bootloader/src/sha256.c:40-48 | the in-place schedule holds the 64 words of the standard |
| Sha256.Context.RunRounds | bootloader/src/sha256.c:50-58 | the round loop computes the 64 rounds, which the published digest of "abc" fixes (`Sha256Reference.AbcDigest`) |
| Sha256.Context.Transform | bootloader/src/sha256.c:36-64 | one transform is the compression function on the buffered block (`Sha256Reference.FeedForward`) |
| Sha256.Context.Push | bootloader/src/sha256.c:83-89 | buffering a byte appends it to the message the context stands for |
| Sha256.Context.Update | bootloader/src/sha256.c:80-91 | an update of any length appends its data to the message |
| Sha256.Context.PadTail | bootloader/src/sha256.c:93-107 | both padding branches leave the standard's padding up to the length field |
| Sha256.Context.PutLength | bootloader/src/sha256.c:109-117 | the bit length is stored big-endian in the last eight bytes |
| Sha256.Context.WriteOut | bootloader/src/sha256.c:120-128 | the digest is the state words in big-endian order |
| Sha256.Context.Final | bootloader/src/sha256.c:93-128 | the digest of everything fed in, for messages under 2^64 bits |
| Sha256.HashPieces | bootloader/src/sha256.c:80-128 | every split of a message into updates gives the hash of the whole message |
| Sha256.Sha256 | bootloader/src/sha256.c:130-136 | the one-shot form gives the hash of the standard, as `Sha256Reference` pins it |
| LowS.IsCanonicalLowS | bootloader/src/crypto.c:78-100 | the borrow chain accepts a signature if and only if r > 0 and 0 < s <= n/2 as big-endian numbers |
| LowS.Borrow | bootloader/src/crypto.c:93-98 | the borrow loop gives 1 if and only if the first big-endian number is below the second |
| LowS.HalfOrderValue | bootloader/src/crypto.c:70-75 | the 32-byte constant is half the order of the curve, rounded down |
| LowS.OrderForm | bootloader/src/crypto.c:66-69 | the order is that of P-256, written by the powers of two it is close to |
| LowS.BorrowStep | bootloader/src/crypto.c:88-97 | one step of the borrow chain keeps the comparison of the bytes seen so far |
| LowS.EncodedIsCanonical | tools/sign_firmware.py:71-76 | the tool's normalisation always lands in the accepted range |
| Layout.EraseSparesIffSeparate | bootloader/src/flash_driver.c:351-363 | erasing a range preserves another for every content exactly when no sector meets both |
| Layout.RangeErased | bootloader/src/flash_driver.c:351-363 | every byte of an in-flash range is in a sector that erasing the range erases |
| Layout.ShippedConfigEraseHitsSlotA | docs/architecture.md:162-179 | with the shipped table, erasing the configuration erases the first 60 KB of slot A |
| Layout.ShippedSlotBEraseHitsSlotA | bootloader/src/flash_driver.c:15-36 | with the shipped table, erasing any part of the head of slot B erases the tail of slot A |
| Layout.ShippedSlotBEraseReach | bootloader/src/flash_driver.c:15-36 | and of slot A it erases exactly the last 16 KB, however much of slot B is erased |
| Layout.ShippedSlotAEraseHitsConfig | docs/architecture.md:162-179 | with the shipped table, erasing any part of slot A erases the stored configuration |
| Layout.ShippedSlotAEraseReach | bootloader/src/flash_driver.c:15-36 | with the shipped table, erasing up to 444 KB of slot A spares slot B, and more erases its head |
| Layout.PartitionedTableIsolated | common/memory_map.h:28-35 | sectors that follow the partitions tile the flash and isolate them |
| Layout.ShippedTableNotIsolated | common/memory_map.h:28-35 | the shipped table does not isolate the partitions; the configuration record lies in one sector |
| Flash.Nor.FindSector | bootloader/src/flash_driver.c:38-46 | the lookup loop returns the last sector that starts at or below the address, or -1 |
| Flash.Nor.SectorStart | bootloader/src/flash_driver.c:48-52 | the start of the sector found, 0 if there is none |
| Flash.Nor.SectorSize | bootloader/src/flash_driver.c:54-58 | the size of the sector found, 0 if there is none |
| Flash.IndexContains | bootloader/src/flash_driver.c:38-46 | for an in-flash address the sector found contains it |
| Flash.Nor.EraseSector | bootloader/src/flash_driver.c:316-349 | success means the whole sector reads 0xFF and nothing else changed; failure means a wrong address or a misbehaving controller |
| Flash.Nor.EraseRange | bootloader/src/flash_driver.c:351-363 | for an in-flash range it terminates, and success means exactly the sectors meeting the range are erased; otherwise only those can have changed |
| Flash.EraseDone | bootloader/src/flash_driver.c:351-363 | the sectors the loop went through are exactly the ones that meet the range |
| Flash.Nor.ProgramWord | bootloader/src/flash_driver.c:365-380 | success means an aligned address and the word in place, little-endian; no other byte changes |
| Flash.Nor.ProgramByte | bootloader/src/flash_driver.c:411-431 | success means the byte is in place; no other byte changes |
| Flash.Nor.ProgramWords | bootloader/src/flash_driver.c:394-409 | after the word phase a prefix of the data is in place |
| Flash.Nor.ProgramTail | bootloader/src/flash_driver.c:411-431 | the byte phase completes what the word phase left |
| Flash.Nor.ProgramBytes | bootloader/src/flash_driver.c:382-434 | for every alignment and length, success means the target equals the data; it fails only when the controller does, and no other byte changes |
| Flash.Nor.Read | bootloader/src/flash_driver.c:436-440 | reads the bytes stored |
| Flash.SnapshotsAppend | bootloader/src/flash_driver.c:382-434 | the flash images passed through while writing two pieces are those of writing their concatenation |
| FirmwareImage.HeaderFields | tools/firmware_image.py:51-72 | every header field reads back as the value serialised, whatever follows the header |
| FirmwareImage.HeaderLayout | common/firmware_format.h:9-18 | every field of the header lies at the offset of the format, little-endian, and the padding is zero |
| FirmwareImage.LogicalExactly | tools/delta_common.py:12-25 | the tool takes a file for an image if and only if it starts with the magic number and holds header and payload, and then cuts off what follows |
| Bytes.LittleEndian | bootloader/src/ota_client.c:61-71 | the little-endian readers give the big-endian number of the bytes backwards |
| FirmwareImage.ParseBuilt | tools/sign_firmware.py:43-65 | a tool-built image parses back to itself |
| FirmwareImage.BuildParsed | tools/firmware_image.py:74-76 | the signing bytes of a parsed file are that file with signature and padding zeroed and any tail cut off |
| FirmwareImage.LogicalOfBuilt | tools/delta_common.py:12-25 | the logical image of a built image with anything after it is the built image |
| Crypto.ConstantTimeEqual | bootloader/src/crypto.c:102-111 | true if and only if the strings are equal, without an early exit |
| Crypto.ValidatePublicKey | bootloader/src/crypto.c:113-126 | accepts exactly a key on the curve with the embedded fingerprint |
| Crypto.PayloadChecksum | bootloader/src/crypto.c:144-160 | the chunked CRC equals the checksum of the whole payload |
| Crypto.HashHeader | bootloader/src/crypto.c:33-47 | the hash has been fed the header with its signature field zeroed |
| Crypto.HashFlash | bootloader/src/crypto.c:49-61 | streaming a stretch of flash in chunks of any size feeds exactly its bytes |
| Crypto.HashSignedRegion | bootloader/src/crypto.c:27-64 | the chunked hash equals SHA-256 of the signed region |
| Crypto.VerifyFirmware | bootloader/src/crypto.c:128-174 | decides as verification of the slot's bytes does; what that is, exactly, are the next two rows |
| Crypto.VerifyDecides | bootloader/src/crypto.c:128-174 | a slot verifies if and only if the key is on the curve and has the fingerprint, magic and size are right, the payload has the stored CRC, both halves of the signature are in range as numbers, and the oracle accepts it for the hash of header and payload with octets 20 to 83 zero |
| Crypto.VerifyExactly | bootloader/src/crypto.c:128-174 | a slot that starts with an image of the tool verifies if and only if the key is good and the signature is in range and accepted for the hash of what the tool signs |
| Crypto.VerifyReadsLogicalImage | bootloader/src/crypto.c:128-174 | the decision depends on header and payload alone, not on what follows them in the slot |
| Crypto.SignToolBuilds | tools/sign_firmware.py:79-115 | the tool run on a tool-built file gives the image with the encoded signature and nothing else changed |
| Crypto.SignedRegionIsSigningBytes | tools/firmware_image.py:74-76 | the zero-signature region the device hashes is what the tool signs |
| Crypto.SignThenVerify | tools/sign_firmware.py:43-76 | every payload that fits a slot, built and signed, verifies on the device with its version and payload, and is the slot's logical image |
| BootConfig.DecodeEncode | bootloader/src/boot_config.c:15-19 | the 24-byte record decodes to what was encoded |
| BootConfig.EncodeDecode | bootloader/src/boot_config.c:15-19 | every 24-byte string is the encoding of what it decodes to |
| BootConfig.RecordLayout | bootloader/include/config.h:27-40 | every field of the record lies at its offset, little-endian |
| BootConfig.ValidRecord | bootloader/src/boot_config.c:87-92 | 24 bytes are a valid record if and only if octets 16 to 19 are the magic number and the last four are the checksum of the first twenty |
| BootConfig.Cell.StampCrc | bootloader/src/boot_config.c:82-85 | the CRC field becomes the checksum of the first 20 bytes, the rest stays |
| BootConfig.Cell.SetDefault | bootloader/src/boot_config.c:21-33 | the default configuration |
| BootConfig.Cell.Probe | bootloader/src/boot_config.c:42-64 | the sanity checks and the verification together are verification of the slot, with the header's version |
| BootConfig.Cell.RecoverFromSlots | bootloader/src/boot_config.c:35-80 | versions, active slot and counter come from the slots that verify |
| BootConfig.Cell.LoadFrom | bootloader/src/boot_config.c:94-101 | the stored record if it is valid, otherwise the recovered defaults |
| BootConfig.Cell.RecordOtaToSlot | bootloader/src/boot_config.c:120-134 | the slot's version is recorded, and the counter raised when the version is above the floor |
| BootConfig.Cell.Save | bootloader/src/boot_config.c:136-166 | success means the record is in place; with the record in one sector, every image logged on the way, also of a failing save, is one of the modelled cuts; it fails only when the controller does, and changes nothing outside the erased sectors |
| BootConfig.TornRecordInvalidOrWhole | bootloader/src/boot_config.c:136-166 | every prefix of a save reads back as invalid or as exactly the new record, with no assumption about CRC collisions |
| BootConfig.SavedLoadsBack | bootloader/src/boot_config.c:94-101 | a successful save loads back as the saved configuration |
| BootConfig.LoadAfterCut | bootloader/src/boot_config.c:94-101 | after a cut anywhere in a save the next load gives the new configuration or a recovered one |
| BootConfig.CutLoadsExactly | bootloader/src/boot_config.c:136-166 | after a cut the record is valid if and only if its magic is right and the bytes not yet written are all 0xFF anyway |
| BootConfig.CutSparesSlot | bootloader/src/boot_config.c:136-166 | a save, complete or cut, leaves a slot that shares no sector with the configuration alone |
| BootConfig.CounterFloor | bootloader/src/boot_config.c:130-133 | the counter never lifts the floor above the version itself, except to v1.0.0 |
| BootConfig.CounterIsMajor | bootloader/src/boot_config.c:130-133 | the counter is the third octet of the version, 1 standing in for 0 |
| BootConfig.AllowedMeans | bootloader/src/boot_config.c:103-118 | a version is permitted if and only if it is at or above the counter times 65536 and both recorded versions |
| BootConfig.ConsistentFloor | bootloader/src/boot_config.c:103-113 | with the counter following the higher recorded version, the floor is a function of that version |
| BootConfig.RecoveredFloor | bootloader/src/boot_config.c:35-80 | a recovered configuration is valid and its floor is that of the highest version that verifies |
| BootConfig.RecoveredRecord | bootloader/src/boot_config.c:35-80 | the recovered record holds what the slots that verify carry, the newest of them is active, slot A at a tie, the counter is its major version, and no attempts are counted |
| BootConfig.RecordRaisesFloor | bootloader/src/boot_config.c:115-134 | a permitted record raises the floor to the one of its version and never lowers it |
| BootConfig.HistoryFloor | bootloader/src/boot_config.c:103-134 | after any history of permitted records from the defaults, the floor is that of the highest version recorded |
| BootConfig.AllowedExactly | bootloader/src/boot_config.c:115-118 | after any history of permitted records exactly the versions from the floor of the highest one on are permitted, that one itself included |
| BootConfig.HistoryRecords | bootloader/src/boot_config.c:120-134 | after such a history each slot has the version last recorded for it, and the counter is the major version of the highest |
| BootConfig.RecoveryRebuildsFloor | bootloader/src/boot_config.c:35-80 | the recovered floor equals the lost one if and only if the highest version that still verifies gives the same floor |
| Boot.Bootloader.SaveOrWarn | bootloader/src/main.c:61-66 | either the save went through or only configuration sectors changed, and the code goes on |
| Boot.Bootloader.LoadAndConfirm | bootloader/src/main.c:216-230 | load, confirmation check and the save after it leave the modelled stage |
| Boot.Bootloader.CheckAppConfirmation | bootloader/src/main.c:76-94 | a confirmed boot resets the attempts and advances the stamp; the flag is cleared in every case |
| Boot.Bootloader.ProcessOtaPendingSwap | bootloader/src/main.c:100-153 | the swap is committed exactly for a pending, verified, permitted image, reverted when the re-verify fails, and the pending flag is cleared in every case |
| Boot.Bootloader.SwapAndSave | bootloader/src/main.c:233-237 | the swap with the save main makes after it |
| Boot.Bootloader.PickSlotToBoot | bootloader/src/main.c:162-205 | the retry loop decides what slot picking specifies, in at most two passes, so its cap is never reached |
| Boot.Bootloader.BootOnce | bootloader/src/main.c:210-246 | without flash failures one boot is the boot step; with both slots away from the configuration failed saves do not change its decision; the handoff flags end up cleared |
| Boot.DecisionStands | bootloader/src/main.c:210-246 | with both slots away from the configuration the saves made during a boot do not influence what it decides, failed or not |
| BootRuns.PickBootsVerifiedSlot | bootloader/src/main.c:162-205 | recovery exactly when neither slot verifies; otherwise a verified slot, the active one, with at most three attempts |
| BootRuns.PickMissesSlotB | common/memory_map.h:74-82 | what happens instead with a stored identifier that is neither A nor B |
| BootRuns.PickRightExactly | bootloader/src/main.c:162-205 | the exact condition on identifier and slots under which recovery mode is entered exactly when neither slot verifies |
| BootRuns.AnyIdentifierCanBeStored | bootloader/src/boot_config.c:87-92 | for every flash there is one with the same slots and a valid record with any given identifier |
| BootRuns.DecideRecords | bootloader/src/main.c:100-153 | records change only by a pending swap to a verified image at or above the floor, and the floor does not go down |
| BootRuns.BootStepPersists | bootloader/src/main.c:210-246 | with both slots away from the configuration a boot decides by the slots as it found them, leaves what verification says of them, and its decision is what the next boot loads |
| BootRuns.BootStepLoads | bootloader/src/main.c:210-246 | in every geometry, what a boot decided is what the next one loads |
| BootRuns.BootStepRecords | bootloader/src/main.c:76-153 | in every geometry, one boot changes the records only by a pending swap to an image verified at or above the floor, lowers no floor, and keeps counter and versions consistent |
| BootRuns.StagesKeepBanks | bootloader/src/main.c:210-246 | with both slots away from the configuration, what verifies at any point of a boot is what verified when it began |
| BootRuns.BootStepKeepsSlot | bootloader/src/main.c:210-246 | a boot changes no byte of a slot that is away from the configuration |
| BootRuns.FloorNeverDecreases | bootloader/src/main.c:210-246 | over every run of boots with working saves, in every geometry, with anything happening to slots and SRAM in between as long as the stored record stays, the floor a later reset finds is not below one an earlier reset found, and the records stay consistent |
| BootRuns.RecoveryExactOverRuns | bootloader/src/boot_config.c:35-80 | at any point of such a run, losing the configuration gives back the same floor if and only if the highest version that verifies has the floor of the highest one recorded |
| BootRuns.FloorSurvivesCuts | bootloader/src/boot_config.c:136-166 | over every run in which power may also fail after any byte of any save or before the first, in every geometry, the floor never goes down as long as at each cut no byte of the record is missing or a version that verifies is as high as the floor found |
| BootRuns.CutStep | bootloader/src/boot_config.c:136-166 | and from one reset to the next the floor found stays or rises if and only if that condition holds, for every ending and every save |
| BootRuns.SavesMakeTheBoot | bootloader/src/main.c:210-246 | the saves that can be cut, one after the other, lead from the flash a boot found to the one it leaves |
| BootRuns.SavesRaiseFloor | bootloader/src/main.c:210-246 | no save of a boot stores a floor below the one the boot found |
| BootRuns.BootsOnlyPermitted | bootloader/src/main.c:100-153 | at every boot of a run with working saves, in every geometry, the slot booted verified when it was picked, and verifies at the jump if it is away from the configuration; and a recorded image verified when the swap was decided, at or above every earlier floor |
| BootRuns.CommitCutKeepsFloor | bootloader/src/main.c:134-140 | a power cut at any byte of the OTA-commit save leaves the committed record or a recovered configuration with at least its floor, if the new slot is away from the configuration |
| BootRuns.CutFloorExactly | bootloader/src/boot_config.c:136-166 | after a cut the floor found is below the one being saved if and only if bytes of the record are missing and the highest version that verifies is too low; with both slots away from the configuration that version is the one before the save |
| BootRuns.FloorAfterCut | bootloader/src/boot_config.c:136-166 | the floor found after a cut is the one being saved when nothing is missing, otherwise the one of the highest version that verifies |
| BootRuns.SavesFindSlot | bootloader/src/main.c:210-246 | every save of a boot finds a slot away from the configuration as the boot found it |
| BootRuns.JumpTarget | bootloader/src/main.c:162-246 | from the flash that slots are picked on to the jump: recovery if and only if neither slot verifies, otherwise a slot that verified, the record saved, and the slot still verifying if that save does not reach it |
| BootRuns.CutKeepsBanks | bootloader/src/boot_config.c:136-166 | with both slots away from the configuration, a power failure in any save of a boot leaves what verification says of the slots |
| BootRuns.EndingWellFormed | bootloader/src/boot_config.c:94-101 | whether a boot is completed or cut, the next reset finds a well-formed identifier if that one did |
| BootRuns.PowerCutsNeverBrick | bootloader/src/main.c:210-246 | with both slots away from the configuration, a well-formed identifier and one slot verifying, however often power fails in whichever save, the next boot that gets through jumps to a slot that verifies |
| BootRuns.PendingSwapBoots | bootloader/src/main.c:100-205 | a pending, verified and permitted image in a slot away from the configuration is swapped to, recorded, persisted and booted on attempt 1 |
| BootRuns.RecoveryMeansNothingVerifies | bootloader/src/main.c:243-245 | a boot that enters recovery mode with a well-formed identifier leaves a flash in which neither slot verifies |
| BootRuns.RebootsFollowSchedule | bootloader/src/main.c:210-246 | with both slots away from the configuration, successive boots of the flash follow the decisions made on the slots the first one found |
| BootRuns.UnconfirmedSchedule | bootloader/src/main.c:162-205 | with both slots verifying, nothing pending and no confirmation, the boots go to each slot three times in turn, from the attempts already counted |
| BootRuns.FourBootsTryBoth | bootloader/src/main.c:162-205 | with both slots verifying, nothing pending and no confirmation, any four consecutive boots try both slots |
| BootRuns.ActiveKeptIffConfirmed | bootloader/src/main.c:76-94 | with both slots verifying, nothing pending and zero attempts counted, the active slot is kept for ever if and only if, after the first boot, no three resets in a row go unconfirmed |
| BootRuns.ShippedSaveKillsSlotA | bootloader/src/boot_config.c:141-143 | with the shipped table every save leaves slot A unverifiable |
| BootRuns.ShippedCutLosesFloor | bootloader/src/boot_config.c:136-166 | with the shipped table, after power fails in any save before its magic is in place, the floor found is that of slot B if it verifies, and 0 if not |
| BootRuns.ShippedBootKillsSlotA | bootloader/src/main.c:239-242 | with the shipped table every boot that starts an application leaves slot A unverifiable |
| BootRuns.ShippedJumpVerifiesExactly | bootloader/src/main.c:239-256 | with the shipped table and a well-formed identifier the slot jumped to still verifies if and only if it is slot B |
| BootRuns.ShippedBootLeaves | bootloader/src/main.c:210-246 | with the shipped table and a well-formed identifier slot A does not verify after any boot, and slot B verifies if it did |
| BootRuns.ShippedRebootsSlotB | bootloader/src/main.c:162-246 | with the shipped table and a well-formed identifier, in a series of resets, from the second one on slot B is booted if it verifies and recovery mode entered if not, whatever attempts, confirmations and pending flags |
| BootRuns.ShippedSwapIntoSlotAReverts | bootloader/src/main.c:138-152 | with the shipped table a swap into slot A is always reverted |
| BootRuns.ShippedEraseOfSlotALosesFloor | docs/architecture.md:162-179 | with the shipped table, erasing slot A for a transfer loses the record, and the floor becomes that of slot B, or 0 when more than 444 KB were erased |
| BootExact.SwapDecided | bootloader/src/main.c:100-153 | a pending image is swapped to, recorded for its slot and booted on attempt 1, if and only if it verifies and is no older than the counter and both versions on record; otherwise the flag has no effect |
| BootExact.PendingBootsIffPermitted | bootloader/src/main.c:210-246 | one boot with its saves, the target away from the configuration: the pending image boots if and only if it verifies and is at or above the floor found, and otherwise the boot is as without the flag |
| BootExact.ConfirmBootCounts | application/include/bootloader_api.h:26-30 | the application's call resets the attempts; a zero flag, a wrong magic or a request for a swap does not |
| BootExact.ActiveKeptIffWritten | bootloader/src/main.c:76-94 | with both slots good the active one is kept if and only if, after the first boot, one of any three resets in a row finds the magic number and a non-zero flag |
| BootExact.LastGoodCounts | bootloader/src/main.c:80-83 | the stamp counts the confirmations modulo 2^32, whatever else the boots do |
| BootExact.OnlyGoodSlotBoots | bootloader/src/main.c:162-205 | with one slot that verifies every reset boots that slot, confirmed or not, pending or not |
| BootExact.AttemptsCycle | bootloader/src/main.c:169-198 | while the alternate does not verify, unconfirmed attempts count up to three and start over at zero |
| BootExact.FallbackSchedule | bootloader/src/main.c:186-198 | falling back is not counted as an attempt: with both slots good from then on the slot fallen back to has three boots of its own |
| Frame.Uart.Resync | bootloader/src/ota_client.c:93-99 | drops exactly the bytes up to and including the first start-of-header byte |
| Frame.Uart.ReadFrame | bootloader/src/ota_client.c:91-133 | returns the status, the frame and the unread input of the reader's specification, for every input |
| Frame.BuiltFrameParses | tools/ota_protocol.py:31-37 | junk without 0x01, then a built frame, then anything: exactly that frame is read and the rest is left |
| Frame.ParsesIffFramed | bootloader/src/ota_client.c:91-133 | the reader accepts exactly what the printer prints, after any junk |
| Frame.WireLayout | tools/ota_protocol.py:5-9 | every field of a frame lies where the format says, little-endian, and the checksum covers opcode, number, length and data |
| Frame.PrefixTimesOut | bootloader/src/ota_client.c:101-122 | a frame that breaks off anywhere is a timeout |
| Frame.OversizeRefused | bootloader/src/ota_client.c:109 | a length above 1024 is refused, and reading goes on right behind the length field |
| Frame.StreamRoundTrip | tools/ota_protocol.py:31-37 | a whole stream of frames with noise in between comes out as it went in |
| Frame.DamagedFrameIsCrcBad | bootloader/src/ota_client.c:123-130 | a burst of up to 32 bits anywhere in payload and checksum, also across the two, with the length field intact, is reported as damage, and the reader is in step again after the frame |
| Frame.DamageSeenExactly | bootloader/src/ota_client.c:123-130 | any damage behind the start byte with the length field intact is reported if and only if the difference does not leave an empty CRC register empty, and the reader is in step again either way |
| Frame.ResponseRoundTrip | tools/ota_protocol.py:40-51 | the host decodes exactly the responses the receiver sends |
| Frame.ResponseLayout | bootloader/src/ota_client.c:52-59 | a response is 0x06 or 0x15 and the number, low octet first |
| Delta.Listener.DiffStreamRead | bootloader/src/delta_patch.c:49-75 | the reply of the stream to this read, at the position reached; `DeltaScript.StreamDelivers` says what the replies come to |
| Delta.Listener.ReadOldCb | bootloader/src/delta_patch.c:82-102 | the bytes of the old image, failure outside its logical length |
| Delta.Listener.WriteNewCb | bootloader/src/delta_patch.c:104-121 | the output grows by the data or stays; patch and old image are untouched |
| Delta.Listener.RunProbe | bootloader/src/delta_patch.c:176-186 | the library's opening phases see the same replies over flash as over a copy of the patch |
| Delta.Listener.RunPatcher | bootloader/src/delta_patch.c:199-201 | any number of steps over flash is that number of steps on immutable copies |
| Delta.RunPatch | bootloader/src/delta_patch.c:164-203 | success exactly when the copy-run succeeds with the expected number of bytes; `DeltaScript.ScriptApplied` says when that is |
| Delta.ApplyPatch | bootloader/src/delta_patch.c:205-259 | only the head of the inactive slot changes, and it ends up with the output of the patcher run on copies; without flash failures that is the pure patch, and `DeltaScript.ScriptOnFlash` what it comes to |
| Delta.FaultFreeIsPatched | bootloader/src/delta_patch.c:164-203 | a run in which no write failed is the pure patch |
| DeltaScript.StreamDelivers | bootloader/src/delta_patch.c:49-75 | a reader that asks for any sizes in turn receives the patch from where it was, in order and without gaps, up to as much as it asked for or the end |
| DeltaScript.ReplyGives | bootloader/src/delta_patch.c:56-74 | a read is refused if and only if bytes are asked for and none is left; otherwise it gives what is left, at most what was asked for |
| DeltaScript.ScriptApplied | bootloader/src/delta_patch.c:164-203 | a patcher that follows an edit script of pieces of the patch and of the old image succeeds if and only if the compression is known, the dictionary is at most 8 KB and the script spells out exactly the announced number of bytes; these are then the output |
| DeltaScript.ScriptOnFlash | bootloader/src/delta_patch.c:205-259 | the same on flash: success if and only if moreover the sizes fit the slot and the active slot holds an image, and the slot then starts with what the script spells out of the stored patch and that image |
| Delta.VerifyActiveBase | bootloader/src/delta_patch.c:123-162 | accepts exactly when the hash of the logical region is the expected digest |
| Delta.BaseIsLogical | tools/delta_common.py:12-30 | device and host take the same bytes as the base if and only if the size field does not overflow the total |
| OtaClient.Receiver.Reset | bootloader/src/ota_client.c:309 | the session becomes idle |
| OtaClient.Receiver.HandleStart | bootloader/src/ota_client.c:138-171 | a START in range erases the inactive slot and opens a session, or fails with the controller and keeps the old one |
| OtaClient.Receiver.HandleStartDelta | bootloader/src/ota_client.c:176-231 | the same for a delta, only when sizes fit behind each other and the running image has the digest asked for |
| OtaClient.Receiver.HandleData | bootloader/src/ota_client.c:233-255 | data in sequence is programmed behind what is stored; anything else changes nothing |
| OtaClient.Receiver.CheckImage | bootloader/src/ota_client.c:276-295 | the written image verifies and its version is permitted (`BootConfig.AllowedMeans`) |
| OtaClient.Receiver.HandleEnd | bootloader/src/ota_client.c:257-302 | a complete transfer is reconstructed if a delta, and accepted exactly when it verifies and is permitted; only then is it marked pending |
| OtaClient.Receiver.Dispatch | bootloader/src/ota_client.c:326-342 | each opcode goes to its handler, others are rejected |
| OtaClient.Receiver.Receive | bootloader/src/ota_client.c:307-359 | every byte read and every byte sent is accounted for, and the call ends exactly on an accepted END, an ABORT or sixteen failures in a row |
| OtaClient.HandlesKeepsSession | bootloader/src/ota_client.c:138-302 | no frame takes an open session out of its slot or past its total |
| Answers.StartAnswered | bootloader/src/ota_client.c:138-171 | without flash failures START is acknowledged if and only if it announces 512 bytes to 460 KB; then the sectors of that size are erased and the session opened, otherwise nothing happens |
| Answers.DeltaStartAnswered | bootloader/src/ota_client.c:176-231 | START_DELTA if and only if patch and new image fit the slot together, the new one is at least a header, and the image in the running slot hashes to the digest |
| Answers.DataAnswered | bootloader/src/ota_client.c:233-255 | DATA if and only if a session is open, it has the next number, is not empty and fits; then its bytes are where the session has got to, and nothing else changes |
| Answers.EndAnswered | bootloader/src/ota_client.c:257-302 | END if and only if all bytes arrived, the pure patch, if one is needed, makes an image of the announced size, and what is then in the slot verifies and is at or above the floor; the pending flag is raised with it and only then |
| Answers.OthersAnswered | bootloader/src/ota_client.c:340 | any other opcode is refused and changes nothing |
| Answers.ReplyExactly | bootloader/src/ota_client.c:315-343 | the bytes sent for whatever the reader returned: nothing on a timeout, a refusal with number 0 on damage, the frame's number otherwise |
| Answers.EndsExactly | bootloader/src/ota_client.c:307-359 | the call ends with the first accepted END or ABORT or as soon as sixteen passes in a row have failed, and reports success for the END alone |
| Transfers.FrameSpares | bootloader/src/ota_client.c:138-302 | a frame changes nothing that shares no sector with the slot it touches |
| Transfers.ProgramsStayInSlot | bootloader/src/ota_client.c:233-302 | DATA and END program only cells of the session's slot |
| Transfers.DataExtends | bootloader/src/ota_client.c:233-255 | accepted DATA extends the stored bytes by exactly its payload, rejected DATA keeps them |
| Transfers.EndKeepsStored | bootloader/src/ota_client.c:257-302 | END leaves the transferred bytes in place, also when a delta is applied in front of them |
| Transfers.StoresWhatItAccepted | bootloader/src/ota_client.c:307-359 | after any sequence of frames in which no rejected START reached the stored bytes, those are the payloads accepted since the last START, in order |
| Transfers.RepeatRejected | bootloader/src/ota_client.c:238 | the last accepted DATA frame, sent again in its session, is rejected and changes nothing |
| Transfers.RejectedStartKeepsStoredExactly | bootloader/src/ota_client.c:138-231 | a rejected START or START_DELTA is sure to keep an open session and its stored bytes if and only if no stored byte lies in a sector it erases |
| Transfers.NextStartHarmlessExactly | bootloader/src/ota_client.c:159-162 | the same after any sequence of frames |
| Transfers.TransfersKeepConfig | bootloader/src/ota_client.c:307-359 | with both slots away from the configuration, no sequence of frames touches it, valid or not |
| Transfers.TransfersKeepAim | bootloader/src/ota_client.c:307-359 | with a valid configuration away from the inactive slot, no sequence of frames touches it, and an open session is aimed at that slot |
| Transfers.AimableBackwards | bootloader/src/ota_client.c:138-231 | if after a frame the configuration is valid, and both slots are away from it or it lies in one sector and nothing failed, the frame left it and the choice of slots alone |
| Transfers.EraseSparesOrWipes | bootloader/src/flash_driver.c:351-363 | an erase leaves a record that lies in one sector as it is, or all 0xFF |
| Transfers.TransfersKeepApart | bootloader/src/ota_client.c:307-359 | with a valid configuration away from the inactive slot, no sequence of frames changes a byte of any range that shares no sector with that slot |
| Transfers.TransfersKeepRunning | bootloader/src/ota_client.c:307-359 | in particular, if erasing the inactive slot spares the other one, no sequence of frames changes a byte of that |
| Transfers.IsolatedSparesRunning | common/memory_map.h:28-35 | in an isolated geometry erasing the inactive slot spares the other and the configuration |
| Transfers.StartKeepsImageExactly | bootloader/src/ota_client.c:205-219 | an accepted START or START_DELTA leaves the image in a slot as it is if and only if it erases only bytes of it that were 0xFF |
| Transfers.SameImageExactly | bootloader/src/delta_patch.c:123-162 | two slots hold the same image if and only if they agree on its bytes, its magic and its size field |
| Transfers.DeltaWithoutBaseRejected | bootloader/src/delta_patch.c:221-227 | while flash operations succeed, the END of a delta whose START erased the header of its base is rejected and changes nothing, whatever frames came before |
| Transfers.WhoErasesItsBase | common/memory_map.h:74-82 | such deltas are all those with coinciding slots, and on the shipped part exactly those that are not from slot A into slot B |
| Transfers.PendingMeansAccepted | bootloader/src/ota_client.c:297-300 | the pending flag is raised by nothing but an END whose image verified and was permitted |
| Transfers.TransferKeepsFloor | bootloader/src/ota_client.c:307-359 | a boot, any transfer into a slot away from the configuration and a reset: the floor found then is not lower |
| Transfers.ShippedStartIntoSlotALosesFloor | bootloader/src/ota_client.c:159-162 | with the shipped table an accepted START into slot A erases the stored record, and the floor found next is what slot B gives, or 0 |
| Transfers.ShippedStartIntoSlotBKeepsImage | bootloader/src/ota_client.c:205-219 | with the shipped table an accepted START into slot B leaves the image in slot A as it is if and only if that ends before the last 16 KB of its slot or is blank there |
| Transfers.ShippedStartIntoSlotAKeepsImage | bootloader/src/ota_client.c:159-162 | with the shipped table an accepted START into slot A leaves the image in slot B as it is if and only if it erases at most 444 KB, which a START_DELTA never does |
| Transfers.ShippedTransfersKeepHeadOfSlotA | bootloader/src/ota_client.c:307-359 | with the shipped table and slot A active, no sequence of frames changes the first 444 KB of slot A |
| Channel.StartOpens | bootloader/src/ota_client.c:138-231 | an accepted START opens a session with the job's size and nothing stored; where the aim counts it is aimed at the inactive slot, and a delta's base is what the erase left of an image with the host's digest |
| Channel.DataStep | bootloader/src/ota_client.c:233-255 | the expected chunk advances the session by itself, a chunk with any other number does nothing |
| Channel.EndStep | bootloader/src/ota_client.c:257-302 | an accepted END completes the job, a rejected one can be tried again |
| Channel.EndRebuilds | bootloader/src/delta_patch.c:205-259 | in every geometry, after an accepted delta END between two different slots, the new one starts with what the patcher makes of the host's patch and of the image in the other |
| Channel.BaseKept | bootloader/src/ota_client.c:138-302 | frames other than an accepted START leave the base of an aimed delta alone |
| Channel.EnvKeepsInv | tools/ota_server.py:138-209 | losses, damage, deliveries, late answers, aborts, resets: every step of link and receiver keeps the protocol invariant |
| Channel.AckAdvances | tools/ota_server.py:177-197 | after the acknowledgement of a frame is read, the invariant holds for the next one, across the wrap of the sequence number |
| Channel.RunKeepsInv | tools/ota_server.py:138-209 | the invariant holds in every reachable state of sender, link and receiver |
| Channel.ReceiverAtMostOneAhead | tools/ota_server.py:188-197 | in every reachable state with START acknowledged and the session open, the receiver has stored between `sent` and `sent + chunk` bytes, and they are the first bytes of the image or patch |
| Channel.EndAckedMeansCompleted | tools/ota_server.py:203-209 | an acknowledged END means the transfer is complete: all bytes in order in the slot, verified, permitted, pending |
| Channel.LeftoverAckMisleads | tools/ota_server.py:177-197 | an acknowledgement numbered like the START, left over while a session expects just the job's bytes, leads to an acknowledged END without the transfer having taken place |
| OtaServer.Transport.Tick | bootloader/src/ota_client.c:326-352 | whatever the link and the receiver's code do, an ABORT included, is one of the modelled steps |
| OtaServer.Transport.ReadExact | tools/ota_server.py:55-56 | a timeout, or the response at the head of the queue in a state of the invariant |
| OtaServer.SendWithRetry | tools/ota_server.py:138-163 | the frame is written before each of at most five reads; true if and only if the last read is the acknowledgement with its number, no earlier one is, and all five were made if none is |
| OtaServer.FramesOf | tools/ota_server.py:177-209 | the frames of a job are its START, the chunks of the blob in order, and END, numbered from the START on modulo 65536 |
| OtaServer.SendAll | tools/ota_server.py:177-209 | true if and only if every frame up to END could be built and was acknowledged, one after the other, with nothing else on the line; and then the receiver completed the job |
| OtaServer.Push | tools/ota_server.py:177-209 | true if and only if every frame of the image up to END was acknowledged; and then the whole image landed in the slot, in order, and END was verified and accepted |
| OtaServer.PushDelta | tools/ota_server.py:212-262 | the same for a delta against the digest of the old image's logical bytes; malformed images fail before anything is sent |
| Delivery.ImageGoesThrough | tools/ota_server.py:177-209 | from an idle receiver, over a link that loses nothing and with a flash that does not fail, an image of 512 bytes to 460 KB that verifies in the inactive slot and is at or above the floor is taken frame by frame to the acknowledged END, and the slot then starts with it |
| Delivery.DeltaGoesThrough | tools/ota_server.py:212-262 | the same for a delta whose sizes fit, whose base has the digest and still has its header after the erase, and whose pure patch makes such an image |
| Delivery.SignedPayloadGoesThrough | tools/ota_server.py:177-209 | all the way: any payload built and signed for the device's key and no older than the floor goes through over such a link into an inactive slot away from a valid configuration, and the reset that follows runs it under its version on attempt 1 |
| Delivery.SignedDeltaGoesThrough | tools/ota_server.py:212-262 | the same for a delta whose pure patch, applied to the image in the running slot, gives such a payload |
| Channel.AnswersAreReplies | bootloader/src/ota_client.c:315-343 | the answers on the modelled link are the bytes the receive loop sends |
| EndToEnd.CompletedBoots | bootloader/src/ota_client.c:297-300 | after a completed transfer into the inactive slot, away from the configuration, the reset boots the slot just written, unchanged, on attempt 1, and keeps it |
| EndToEnd.PushedImageBoots | tools/ota_server.py:177-209 | the slot running after such a push and reset starts with exactly the bytes pushed |
| EndToEnd.ShippedPushIntoSlotBBoots | tools/ota_server.py:177-209 | on the shipped part, with the record valid when END was accepted and no flash failure, an image pushed into slot B boots as it was pushed |
| EndToEnd.PushedDeltaBoots | tools/ota_server.py:212-262 | after a successful delta push into the inactive slot, away from the configuration, and a reset, that slot is booted and starts with the patch's output on the image in the other slot; where the aim counts, that image has the host's digest if erasing the new slot spares it, and is what the erase left of one with that digest if no flash operation failed |
| EndToEnd.LeftImageExactly | bootloader/src/ota_client.c:205-219 | the base of a delta is still the image whose digest was checked if and only if the erase took only bytes of it that were 0xFF |
| EndToEnd.ShippedBaseIntactExactly | bootloader/src/ota_client.c:205-219 | on the shipped part, from slot A into slot B: if and only if the image ends before the last 16 KB of its slot or is blank there, and then it has the host's digest |
| EndToEnd.ShippedDeltaIntoSlotBBoots | tools/ota_server.py:212-262 | on the shipped part, with the record valid and no flash failure, a delta into slot B boots, made from what slot A holds, which has the host's digest if it is at most 444 KB long |
| EndToEnd.SignedPayloadRuns | tools/sign_firmware.py:79-115 | a payload built, signed and pushed into the inactive slot, away from the configuration, is the payload running after the reset, under its version |
| EndToEnd.SignedDeltaRuns | tools/ota_server.py:212-262 | without flash failures, a delta between two slots whose pure patch gives a payload built and signed makes that payload run after the reset, under its version |
| Recovery.RecoveryDeltaBaseNeverVerifies | bootloader/src/delta_patch.c:123-162 | in recovery mode a delta accepted as the first frame, or after any frames when the inactive slot shares no sector with the configuration or the other slot, has a base with the digest asked for, and no slot with that image verifies |
| Recovery.NeverVerifiesExactly | bootloader/src/crypto.c:128-174 | that no slot with an image verifies is the same as that one such slot does not |
| Recovery.DeadBasesExactly | bootloader/src/ota_client.c:176-231 | in recovery mode, with the inactive slot away from the configuration and no flash failure, whatever frames arrive every delta accepted has a base that does not verify, if and only if no size of START into the inactive slot erases the other one to an image that verifies |
| Recovery.BaseLeftAlways | bootloader/src/ota_client.c:138-231 | after any frames without flash failure the base is what one START of some size, or none, would have left of it |
| Recovery.Upload | bootloader/src/ota_client.c:307-359 | any image can be stored from an idle receiver, in frames that fit its buffer |
| Recovery.DeltaAccepted | bootloader/src/ota_client.c:176-231 | a START_DELTA in range with the digest of the image in the active identifier's slot is accepted when its erase succeeds |
| Recovery.ShippedUploadRevivesBase | bootloader/src/ota_client.c:144-162 | on the shipped part, in recovery mode with slot B active, START and the DATA of any image that verifies lead to a state with no valid record and slot A active, holding that image, in which every START_DELTA in range against it is accepted |
| Recovery.ShippedDeadBasesExactly | bootloader/src/ota_client.c:176-231 | on the shipped part, in recovery mode, without flash failures and with a key under which some image verifies: every delta accepted has a base that does not verify if and only if slot A is active when recovery begins and would not verify with its last 16 KB erased |
| Recovery.ShippedDeltaBaseNeverVerifies | bootloader/src/delta_patch.c:123-162 | on the shipped part, with slot A active when recovery begins, after any frames and flash failures, an image of at most 444 KB in slot A does not verify |

## Left out

- `uart.c`, `iwdg.c`, logging, sockets, serial ports, command lines and progress output: input and output without state of their own; a timeout is the end of the input.
- Flash controller registers, unlock keys, busy waits and the QEMU shadow of the flash: the controller is an arbitrary content and status per pulse.
- micro-ecc, HPatchLite and tinyuz: an oracle and an arbitrary strategy stand for them.
- `bootloader_jump_to_application`, startup code, linker scripts and vector tables: foreign machine state.
- The recovery menu: a receiver that is left and entered again covers it in the protocol theorems.
- Key generation, key embedding, `make_delta.py`, `flash_layout.py` and the Makefile: build plumbing.
- Delivery under lost responses: a resent DATA frame is rejected, so there only safety holds (`Delivery` is about a link that loses nothing); response time-outs carry no clock.
- Damage to a frame's length field, and resynchronisation inside a payload: a damaged frame is lost or reported as damaged. A response arrives whole or not at all.
- Power cuts inside a sector erase, and partial programming of one byte: both count as one step.
- Timing side channels: the byte accumulators of the constant-time comparison and of the signature check are truth values, and the lack of an early exit shows in the loops only.
- Delta.ApplyPatch: when old and new slot coincide, which needs a stored slot identifier that is neither A nor B, it states only that nothing but the head of that slot changes; such a delta is never accepted unless a flash operation failed (`Transfers.DeltaWithoutBaseRejected`).
- BootConfig.Cell.Save: it states the images on the way for a record that lies in one sector, as it does in the shipped table; what a failing operation leaves in the cells it addressed is not among them.
- OtaServer.Push: frames and answers of earlier transfers may still be in flight at the start, an END among them, but none numbered like the START, except copies of it behind the others, and no acknowledgement of that number, except to an idle receiver with nothing else in flight. Neither end could tell those from its own, since frames carry no name of their transfer (`Channel.LeftoverAckMisleads`). Negative chunk sizes, which the command line refuses (`tools/ota_server.py:321-325`), are not modelled.
- OtaServer.PushDelta: the same.
- OtaServer.SendAll: the same; it is the common body of the two push functions, which spell it out twice.
