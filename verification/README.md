# Verified model of the Hart Software Services boot firmware

The Hart Software Services run on the monitor core of a PolarFire SoC. They train and test the DDR,
read a boot image from storage, place its chunks in memory for four application harts, hand these over
to OpenSBI, and later restart them when a watchdog fires. This project models the parts of that
firmware that carry an algorithm or a protocol, and proves what they guarantee.

Each component has a specification on values (functions over registers, byte sequences, machine
states) and, where the firmware changes state step by step, classes and loops that are proved to
compute that specification. The theorems are lemmas about the specification.

| file | component |
|---|---|
| `Crc32.dfy`, `Bytes.dfy` | table-driven CRC-32, little-endian fields |
| `ImageHeader.dfy` | boot image header check |
| `Gpt.dfy`, `GptLayout.dfy` | GUID partition table reader and boot partition listing; its records written field by field |
| `Pmp.dfy` | physical memory protection decode and permission checks |
| `MemTest.dfy` | DDR tests against aliasing maps and stuck bits |
| `Scrub.dfy` | RAM scrubber |
| `BadBlocks.dfy`, `QspiCache.dfy`, `QspiCoherence.dfy`, `QspiFlush.dfy`, `QspiReach.dfy`, `QspiDevice.dfy` | QSPI block map and write-back cache |
| `StateMachine.dfy` | super-loop engine and when its traces are well bracketed |
| `BootImage.dfy`, `BootMachine.dfy`, `BootTrace.dfy` | image tables; the four boot machines as steps over shared memory; these steps as runs of the engine |
| `BootMemory.dfy`, `BootProgress.dfy`, `BootAgain.dfy`, `BootAncillary.dfy` | memory correctness for every schedule, calls needed to load, loading again after a restart, ancillary data |
| `BootOutcome.dfy`, `BootAnswer.dfy`, `BootCompletion.dfy` | what the completion event means, answers and failures, and exactly when the event is raised |
| `BootCustom.dfy`, `BootService.dfy` | the download as one function of memory; the service itself, updating machines and memory in place |
| `BootSets.dfy`, `Ledger.dfy`, `Reboot.dfy` | restarting boot sets, hart ownership, watchdog reboot |
| `Bits.dfy`, `Sequences.dfy`, `Options.dfy` | masks, powers of two, division; increasing sequences; optional results |

## What the proofs show about the code

Several promises hold only under a condition that the code does not check. The condition is proved in
both directions:

- The demand loop of the QSPI cache steps by a block from an unaligned start. It brings in every block
  of a request exactly when the offset in the first block and the remainder of the length do not carry
  (`QspiCache.CoveredIff`).
- The cache is filled and flushed by physical block but read by logical offset. A cached read is right
  on every freshly initialized device exactly when nothing carries and no bad block lies at or below
  the last block of the request (`QspiCoherence.ReadRightIff`), and a write under the very same
  condition (`QspiCoherence.WriteRightIff`). Runs within the first k blocks behave like a plain array,
  whatever erases fail and whatever programming misses (`QspiFlush.RunRefinesArray`); a fresh device
  admits them exactly when no bad block lies below k (`QspiFlush.FreshIsCoherent`).
- The early exit of a flush counts dirty blocks below the reduced block count. It is safe exactly when
  no dirty block has a number at or above that count (`QspiFlush.EarlyExitIff`). From a fresh device some
  writes and a flush in which nothing fails can leave a dirty block behind exactly when some bad block
  has a number below the count of good ones (`QspiReach.SkipReachableIff`).
- A flush gives up at the first failing erase and takes no notice of a failed program. It leaves
  nothing dirty exactly when no dirty block's erase fails, and otherwise the rest is stranded until
  something else is written (`QspiFlush.FlushCleansIff`). The device is coherent afterwards exactly
  when moreover programming missed no bit that a dirty block needs cleared; what it missed is lost as
  soon as the cache is (`QspiFlush.FlushCoherentIff`).
- `lastChunk` bounds the number of chunks downloaded, not a table index (`BootImage.PlannedIff`).
- A passed write check of a chunk means that the whole padded window can be written, for all
  permissions, exactly in the layouts in which no byte of the window is first held by an entry other
  than the one that decides the check (`Pmp.CheckSufficesIff`). The padding can escape it with a table
  that the decoder yields (`BootImage.PaddingEscapesCheck`). Today every write check passes: `pmpEntry`
  is never filled, because the call of the decoder is compiled out (`HSS/services/boot/hss_boot_pmp.c`
  lines 36 and 53 to 67).
- A GPT entry is fetched faithfully exactly when it does not straddle two sectors: the read of the
  second sector is never reached (`Gpt.FetchedIffInside`).
- `GPT_FindBootSectorIndex` repeats a header check that has not succeeded but ignores its outcome; the
  entry checksum alone decides there (`Gpt.Reader.EnsureEntriesValid`). Both callers
  (`HSS/services/tinycli/tinycli_api.c` lines 583 to 585, `HSS/init/hss_boot_init.c` lines 342 to 344)
  search only after the header has been read and accepted, and with that guard the boot partitions are
  listed exactly when header and entries are accepted (`Gpt.Reader.ListBootPartitions`).
- A top-of-range PMP entry gets the right lower bound exactly when the entry before it is itself
  top-of-range, or is inactive and its old region happens to end there (`Pmp.TorLowerBound`). An
  inactive entry that only supplies the bound is not decoded. `HSS_PMP_Init` compiles the call of the
  decoder out (`#if 0`, line 54 of that file), so nothing meets this today either.
- The address bus test finds nothing exactly when stuck bits at the visited addresses all agree with
  its pattern and only cells without a live bit are shared (`MemTest.TestAddressBus`). The three memory
  tests together miss nothing (`MemTest.TestDdr`).
- The exit hook of the OpenSBI hand-over writes the state when a delivery fails, so the engine
  remembers a state it never entered (`BootMachine.HooksWriteStateIff`). A trace of hooks and handlers is
  well bracketed exactly when no call but the last has hooks that write the state
  (`StateMachine.BracketedIff`); for the boot machines, when no earlier call had a failing hand-over
  (`BootTrace.BootTraceBracketedIff`).
- The completion event is raised exactly when every machine has been found in the complete state
  (`BootMachine.EventIffAllFound`). That is not to say that anything was downloaded: in every run, with
  restarts, a hart that is not booting again has loaded exactly when it does not skip its boot and no
  call since its last restart failed in its set-up (`BootOutcome.EventMeansLoaded`). From power-on, one
  request that restarts all harts and then protection set-ups that time out raise the event over
  untouched memory, with an image registered all along (`BootOutcome.EventWithoutDownload`); so do four
  calls to each hart when all skip their boot (`BootCompletion.SkippedEvent`).
- A hart with chunks that does not skip its boot sets its flag either by an answer in time or by a failed
  call, and never by both (`BootAnswer.AnsweredUnlessFailed`).
- If no call fails, a call that is unsent, unanswered or blocked changes nothing, and the event is raised
  exactly when every hart has had its effective calls and either skips its boot, has no chunks or has
  an entry point (`BootCompletion.EventAfterEffective`). A request
  for all harts restarts them all only if the lowest-numbered hart of every entry-point class has
  chunks, so after booting from power-on an idle class without chunks keeps the event from being raised
  at all (`BootSets.AllRestartedIff`, `BootCompletion.BootHartsEventIff`).
- A hart with chunks but no entry point gets stuck exactly by finishing its download before its flag was
  ever set (`BootOutcome.StuckIffLoaded`), and after that no calls and no restarts ever raise the event
  (`BootOutcome.NeverAfterDownload`).
- Harts that use OpenSBI are in one ledger domain exactly when their entry points are equal or neither
  has a primary hart; harts without an owner all share one domain, so a watchdog on one of them
  restarts them all (`Reboot.SameDomainIff`, `Reboot.RestartIsBootSetIff`).
- The custom boot selects the same chunks as a boot machine exactly when ancillary data and the count
  bound do not matter (`BootCustom.SelectionsAgree`).

## Modelling decisions

- Bit masks of harts are sets of hart numbers; chunk and descriptor pointers are table indices.
- The image tables do not change while an image is being placed. Memory is a byte sequence; reads
  beyond it give 0 and writes beyond it are dropped. A transfer reads all its bytes before it writes.
- `loaded` in a boot machine is history, not a field of the firmware.
- Registering harts, on entering the protection set-up and on leaving the download, touches only the
  ledger; `Ledger.dfy` and `Reboot.dfy` model it apart from the machines, for any order of calls.
- Message delivery, acknowledgements, timeouts, triggers and DDR readiness are answers of an oracle,
  different at every call.
- A faulty memory maps addresses to cells in any way, and any bit of a cell may be stuck.
- Flash programming can only clear bits and may miss any of them; a failed erase leaves the block as it
  was.
- A failed assertion stops the program: around an unreadable partition entry (`Halted`), and on a
  top-of-range protection entry without a predecessor (`halted`).
- A header length beyond the header buffer makes the checksum run on into the memory behind it: the
  entry buffer, then bytes about which nothing is known (`beyond`).
- Integers are unbounded except where the firmware relies on their width: the CRC register and its
  8-bit table counter, the 64-bit test pattern, execution counts and durations, PMP arithmetic.
- A header in `ImageHeader.dfy` has the RV64 layout, with its padding bytes.

## Model

| member | source | states |
|---|---|---|
| Crc32.GenTable | HSS/modules/misc/hss_crc32.c:74-98 | The loop over an 8-bit counter that stops when it wraps leaves, at every one of the 256 indices, eight polynomial steps of that index. |
| Crc32.GenEntry | HSS/modules/misc/hss_crc32.c:91-95 | The inner loop applies the conditional shift eight times. |
| Crc32.UpdateIsEightBits | HSS/modules/misc/hss_crc32.c:104-112 | One table lookup equals shifting in the eight bits of the byte one at a time, lowest first. |
| Crc32.Calculator.constructor | HSS/modules/misc/hss_crc32.c:70-71 | A calculator starts with a table not yet filled. |
| Crc32.Calculator.CalculateEx | HSS/modules/misc/hss_crc32.c:121-140 | For every seed and input the result is the bit-at-a-time CRC of section 8 of RFC 1952, whether or not the table had been filled before. |
| Crc32.Calculator.Calculate | HSS/modules/misc/hss_crc32.c:114-119 | The same with seed 0. |
| Crc32.Chaining | HSS/modules/misc/hss_crc32.c:121-140 | The checksum of a, used as seed for b, is the checksum of a followed by b. |
| Crc32.BitBurst | HSS/modules/misc/hss_crc32.c:121-140 | Two bit strings that differ only inside 32 consecutive positions leave different registers. |
| Crc32.BurstDetected | HSS/modules/misc/hss_crc32.c:104-140 | Two messages whose bits differ only inside a window of 32 bits never have the same checksum. |
| Crc32.ByteBurstDetected | HSS/modules/misc/hss_crc32.c:104-140 | In particular two messages that differ only inside four consecutive bytes. |
| Crc32.FiveBytesUndetected | HSS/modules/misc/hss_crc32.c:104-140 | The bound is sharp: five bytes that spell the polynomial have the checksum of five zeros, for every seed. |
| Crc32.Residue | HSS/modules/misc/hss_crc32.c:121-140 | For every seed and message: followed by its own checksum, lowest byte first, it has the checksum 0x2144DF1C. |
| Crc32.ZeroByte | HSS/modules/misc/hss_crc32.c:121-140 | The checksum of one zero byte is 0xD202EF8D. |
| ImageHeader.ValidateCrc | HSS/services/boot/hss_boot_service.c:1005-1037 | Accepts exactly the headers whose stored checksum is that of the header with checksum and signature zeroed, over the older size for version 0. |
| ImageHeader.ValidateImage | HSS/services/boot/hss_boot_service.c:1039-1083 | Accepts exactly a present image with the boot magic and an accepted header. |
| ImageHeader.AcceptedIff | HSS/services/boot/hss_boot_service.c:1005-1037 | A header is accepted if and only if its bytes 16 to 19 are, lowest first, the checksum of bytes 0 to 15, four zeros, bytes 20 to 1487 and zeros: 64 for version 0 and 144 otherwise. |
| ImageHeader.SealedIff | HSS/include/hss_types.h:154-200 | Written field by field, a header is read with its own magic and accepted if and only if its checksum field is that of the header with checksum and signature blank, in the length of its version. |
| ImageHeader.ImageAcceptedIff | HSS/services/boot/hss_boot_service.c:1039-1083 | The whole check in bytes: the magic DE C0 07 B0 and the sealed checksum. |
| ImageHeader.BurstRejected | HSS/services/boot/hss_boot_service.c:1005-1037 | After a change of at most four consecutive bytes that leaves version and stored checksum alone, the header is still accepted if and only if only signature bytes changed. |
| Gpt.OffsetIsRemainder | HSS/services/boot/gpt.c:242-244 | The offset computed from the sector number is the byte position of the entry modulo the sector size. |
| Gpt.RegularFits | HSS/services/boot/gpt.c:230-268 | If the entry size divides the sector size no entry straddles two sectors. |
| Gpt.FetchedIffInside | HSS/services/boot/gpt.c:246-265 | Whatever disk and buffer hold, for every entry size, the window handed out is the entry if and only if the entry lies in one sector. |
| Gpt.StraddlingEntry | HSS/services/boot/gpt.c:252-261 | A disk and a buffer on which a straddling entry picks up stale bytes. |
| Gpt.RollingMore | HSS/services/boot/gpt.c:488-489 | Continuing the checksum over one more entry keeps it equal to one checksum over the array so far. |
| Gpt.HeaderBurstRejected | HSS/services/boot/gpt.c:154-205 | A burst of at most four bytes that changes a covered byte, or the stored checksum alone, makes an accepted header unacceptable, however long the header says it is. |
| GptLayout.LayoutReadBack | HSS/services/boot/gpt.h:49-67 | From a header written field by field the reader takes the start, count, entry size and checksum of the entries that were written. |
| GptLayout.HeaderAcceptedIff | HSS/services/boot/gpt.c:154-205 | A header written field by field is accepted if and only if it begins "EFI PART", is of revision 1.0, is for sector 1 with entries from sector 2, and carries the checksum of itself with the checksum blank, over the length it states. |
| GptLayout.CoveredFits | HSS/services/boot/gpt.c:172-177 | For a header no longer than its buffer that is just so many of its bytes. |
| GptLayout.EntryReadBack | HSS/services/boot/gpt.h:95-106 | From an entry written field by field the reader takes the first LBA and the two identifiers that were written. |
| GptLayout.FirstLbaOf | HSS/services/boot/gpt.c:321-343 | For an entry of the table that was written so, the first LBA written is what the reader returns. |
| GptLayout.BootGuidSpells | HSS/services/boot/gpt.c:510-550 | The type of a boot partition is written as the bytes of "Hah!IdontNeedEFI". |
| GptLayout.HasImageIff | HSS/services/tinycli/tinycli_api.c:601-612 | The listing shows a partition if and only if 1632 bytes can be read at its start and begin with DE C0 07 B0 or 55 83 8B C0. |
| Gpt.Reader.constructor | HSS/services/boot/gpt.c:555-565 | Nothing is marked valid at first. |
| Gpt.Reader.CheckHeaderCrc | HSS/services/boot/gpt.c:172-177 | The checksum over as many bytes as the header says it has, its own field zeroed, is compared with the stored one, and the field is restored. |
| Gpt.Reader.ValidateHeader | HSS/services/boot/gpt.c:154-205 | True exactly for an accepted header of any stated length, which is left unchanged; validity is recorded and never withdrawn. |
| Gpt.Reader.ReadHeader | HSS/services/boot/gpt.c:210-225 | Sector 1 replaces the start of the header buffer; the result says whether it could be read and is accepted. |
| Gpt.Reader.ReadSector | HSS/services/boot/gpt.c:246-254 | The block read puts the sector at the given place and leaves the buffer alone if the sector is unreadable. |
| Gpt.Reader.ReadPartitionEntryIntoBuffer | HSS/services/boot/gpt.c:230-268 | One sector, or two if the offset lies beyond the first, at the start of the buffer. |
| Gpt.Reader.ReadPartitionEntryByIndex | HSS/services/boot/gpt.c:348-367 | For a regular layout the bytes at the returned offset are the entry on the disk; it fails only if the sector is unreadable. |
| Gpt.Reader.RollEntry | HSS/services/boot/gpt.c:463-489 | Fetches one entry and extends the checksum of the array by it. |
| Gpt.Reader.ValidatePartitionEntries | HSS/services/boot/gpt.c:450-505 | True exactly if every entry is readable and the stored checksum is the one over the whole array, as in section 5.3.3 of the UEFI Specification. |
| Gpt.Reader.TestEntry | HSS/services/boot/gpt.c:391-402 | Tells whether the entry on the disk carries the identifier, with the entry in the buffer. |
| Gpt.Reader.FindPartitionById | HSS/services/boot/gpt.c:372-425 | Returns the least matching index not below the start, with that entry in the buffer; stops only if an entry is unreadable. |
| Gpt.Reader.EnsureEntriesValid | HSS/services/boot/gpt.c:519-527 | Decides by the recorded or recomputed entry checksum alone. |
| Gpt.Reader.FindBootSectorIndex | HSS/services/boot/gpt.c:510-550 | The least boot partition not below the index given, which is left alone on failure. |
| Gpt.Reader.PartitionIdToLbaOffset | HSS/services/boot/gpt.c:321-343 | The first LBA of an entry inside the table. |
| Gpt.Reader.Visit | HSS/services/tinycli/tinycli_api.c:594-617 | The body of the listing visits the partition found and no other, and shows it exactly if its image header can be read and carries one of the two magic numbers. |
| Gpt.Reader.VisitAndSearch | HSS/services/tinycli/tinycli_api.c:591-621 | One pass keeps the list of visited partitions equal to the boot partitions below the one found, and the list of those shown equal to the ones among them with an image. |
| Gpt.Reader.BootList | HSS/services/tinycli/tinycli_api.c:586-621 | The loop ends, has visited every boot partition exactly once in increasing order and nothing else, and has shown those with an image. |
| Gpt.Reader.FreshList | HSS/services/tinycli/tinycli_api.c:586-621 | With nothing validated before, the loop never stops half-way: it lists all boot partitions if the entries are accepted and none otherwise. |
| Gpt.Reader.Init | HSS/services/boot/gpt.c:555-565 | Withdraws both validity marks. |
| Gpt.Reader.InitAndRead | HSS/services/tinycli/tinycli_api.c:581-583 | Succeeds exactly if sector 1 can be read and is an accepted header; the entries are not yet validated. |
| Gpt.Reader.ListBootPartitions | HSS/services/tinycli/tinycli_api.c:570-624 | The whole command lists all boot partitions if header and entries are accepted, and otherwise nothing. |
| Pmp.DecodeNapotSize | HSS/services/boot/hss_boot_pmp.c:138-158 | The shrinking mask finds t, the number of trailing ones, as t + 3, and leaves a mask of t ones. |
| Pmp.DecodeNapot | HSS/services/boot/hss_boot_pmp.c:199-205 | Base and size of a NAPOT register. |
| Pmp.Decode | HSS/services/boot/hss_boot_pmp.c:160-210 | The entry takes its decoded fields; an inactive configuration changes only the mode; stops exactly at a top-of-range entry without a predecessor. |
| Pmp.ConfigReadBack | HSS/services/boot/hss_boot_pmp.c:160-175 | The decoder makes of a configuration byte the mode and permissions it was made from; an inactive one leaves the permissions alone. |
| Pmp.DecodedRegion | HSS/services/boot/hss_boot_pmp.c:177-207 | The bytes a decoded entry holds, for each mode: none, four, the aligned block, or those from the previous entry's end to its own address. |
| Pmp.NapotRegion | HSS/services/boot/hss_boot_pmp.c:199-205 | The region is 2^(t+3) bytes aligned to their size and holds exactly the addresses that agree with the register above bit t (section 3.7.1 of the RISC-V Privileged Architecture 1.12). |
| Pmp.TorLowerBound | HSS/services/boot/hss_boot_pmp.c:182-191 | A top-of-range entry starts at the previous address register if and only if the previous entry is top-of-range, or is inactive and its old region ends there. |
| Pmp.CheckWrite | HSS/services/boot/hss_boot_pmp.c:75-102 | Refuses exactly if the first active entry covering the region does not grant writing. |
| Pmp.CheckRead | HSS/services/boot/hss_boot_pmp.c:104-131 | Grants exactly if the first active entry covering the region grants reading. |
| Pmp.CoversIff | HSS/services/boot/hss_boot_pmp.c:75-131 | An entry covers a region if and only if it holds each of its bytes and the one behind it. |
| Pmp.FirstDecides | HSS/services/boot/hss_boot_pmp.c:75-131 | Entry by entry: the first to cover decides by its own permission; if none does a write is permitted and a read is not. |
| Pmp.CheckSufficesIff | HSS/services/boot/hss_boot_service.c:260-266 | A passed check guarantees, for all permissions, that each of the n bytes to be written is granted by the entry that first holds it, if and only if none of these bytes is first held by an entry other than the one that decides the check. |
| MemTest.TestDataBus | HSS/modules/misc/hss_memtest.c:35-49 | Returns 0 exactly if no bit of the cell is stuck, and otherwise the lowest one-bit pattern that does not come back. |
| MemTest.Fill | HSS/modules/misc/hss_memtest.c:153-160 | Afterwards every cell holds the pattern of the last address that reaches it. |
| MemTest.CheckAndInvert | HSS/modules/misc/hss_memtest.c:166-186 | Complains only about an unhealthy memory, and then at the first address that does not read as its number; otherwise each address showed its pattern and each cell holds the complement of its last. |
| MemTest.CheckInverted | HSS/modules/misc/hss_memtest.c:191-206 | Complains only about an unhealthy memory, and then at the first address that does not read as the complement; otherwise each address showed it. |
| MemTest.PassedIsHealthy | HSS/modules/misc/hss_memtest.c:141-211 | Two clean passes mean an injective map and no stuck bit. |
| MemTest.TestDevice | HSS/modules/misc/hss_memtest.c:141-211 | Finds nothing if and only if all addresses reach different cells and none of their bits is stuck; otherwise reports the first address that misreads in the first pass, or if none does in the second, the readings being given by map and stuck bits. |
| MemTest.WalkPattern | HSS/modules/misc/hss_memtest.c:76-100 | For any map and any stuck bits: finds nothing exactly if no visited address gives away the complement at address 0; leaves the pattern in every visited cell. |
| MemTest.WalkOthers | HSS/modules/misc/hss_memtest.c:114-124 | For any map and any stuck bits: true exactly if another visited address gives away the one under test. |
| MemTest.WalkAntiPattern | HSS/modules/misc/hss_memtest.c:103-135 | Finds nothing exactly if no visited address gives away another under test; both loops end, also through the exit that zeroes the offsets. |
| MemTest.TestAddressBus | HSS/modules/misc/hss_memtest.c:64-139 | For any map and any stuck bits: finds nothing if and only if the stuck bits at visited addresses are 1 in odd and 0 in even places and visited addresses share only cells stuck in every bit; otherwise reports the first address that gives away address 0, or if none does the first that is given away. Without stuck bits: if and only if no two visited addresses share a cell. |
| MemTest.AllSilentIff | HSS/modules/misc/hss_memtest.c:64-139 | No visited address gives away another exactly for the faults described so: the readings of all pairs against the state of single cells. |
| MemTest.PowerOfTwoVisits | HSS/modules/misc/hss_memtest.c:67-76 | For a power-of-two word count the visited addresses are 0 and all powers of two below it. |
| MemTest.TestDdr | HSS/modules/misc/hss_memtest.c:269-283 | The three tests together accept exactly a healthy memory. |
| Scrub.StepKeepsInv | HSS/services/scrub/scrub_service.c:130-213 | Every call keeps the offset inside the current region and on a chunk boundary or at its end. |
| Scrub.EveryWordOncePerPeriod | HSS/services/scrub/scrub_service.c:127-213 | From every reachable state, any X times the sum of max(1, ceil(len/M)) consecutive calls touch every word of every region exactly once. |
| Scrub.TouchedExactlyAt | HSS/services/scrub/scrub_service.c:127-213 | From start-up call n accesses the 64-bit word at byte 8w of a region if and only if n is, up to whole periods, X times the number of chunks in front of the word's own. |
| Scrub.AccessesAreTouches | HSS/services/scrub/scrub_service.c:149-158 | The words accessed by a call are those counted as touched, each once. |
| Scrub.Scrubber.ScrubChunk | HSS/services/scrub/scrub_service.c:152-158 | The inner loop reads the words of the chunk in order. |
| Scrub.Scrubber.ScrubbingHandler | HSS/services/scrub/scrub_service.c:130-213 | One call changes index, offset and count as the step function says and accesses the chunk, or nothing on a skipped iteration. |
| BadBlocks.BuildBadBlockMap | HSS/services/qspi/qspi_api.c:104-131 | The scan writes the good blocks below the count in order and leaves the rest of the map alone. |
| BadBlocks.MapIsBijection | HSS/services/qspi/qspi_api.c:104-131 | For a strictly increasing bad list the map is the order-preserving bijection onto the good blocks. |
| BadBlocks.PhysicalAddressSound | HSS/services/qspi/qspi_api.c:141-160 | A translated address keeps its offset in the block and is never in a bad block. |
| BadBlocks.PhysicalAddressInjective | HSS/services/qspi/qspi_api.c:141-160 | Distinct logical addresses are translated to distinct physical ones. |
| BadBlocks.IdentityUpTo | HSS/services/qspi/qspi_api.c:104-131 | The map is the identity up to a block if and only if no bad block is at or below it. |
| BadBlocks.LogicalToPhysicalBlock | HSS/services/qspi/qspi_api.c:162-174 | The corruption check may rebuild the map over the reduced count; lookup and map are unharmed. |
| QspiCache.ProgramErased | HSS/services/qspi/qspi_api.c:252-262 | Programming, which can only clear bits, stores the cached block in an erased one, except for the bits it misses. |
| QspiCache.FillEffect | HSS/services/qspi/qspi_api.c:176-193 | The demand loop brings in just the physical blocks behind the logical blocks it steps on. |
| QspiCache.CoveredIff | HSS/services/qspi/qspi_api.c:176-193 | These cover the request if and only if offset and length do not carry. |
| QspiCache.ReadRefines | HSS/services/qspi/qspi_api.c:471-483 | When the first k blocks are at home, a read among them that does not carry returns the device's bytes and changes none, also on a device that a failed flush has left incoherent; a coherent device stays so. |
| QspiCache.WriteRefines | HSS/services/qspi/qspi_api.c:485-497 | A write among the first k blocks overwrites just its own bytes of the device and keeps the same invariants. |
| QspiCache.WriteMarks | HSS/services/qspi/qspi_api.c:176-193 | A write marks exactly the blocks its bytes are in. |
| QspiCoherence.RightIffServed | HSS/services/qspi/qspi_api.c:471-483 | A cached read is right on every fresh device if and only if each byte's block is brought in and kept at its own place. |
| QspiCoherence.ReadRightIff | HSS/services/qspi/qspi_api.c:471-483 | In terms of request and bad list: if and only if nothing carries and no bad block is at or below the last block. |
| QspiCoherence.WriteRightIff | HSS/services/qspi/qspi_api.c:485-497 | On every fresh device and for all data a write replaces its own logical bytes and no others under exactly the same condition. |
| QspiFlush.CopyBackStores | HSS/services/qspi/qspi_api.c:239-272 | Whatever erases fail and programming misses, the loop stores the waiting blocks in order, at most n of them, up to the first that cannot be erased. |
| QspiFlush.EarlyExitIff | HSS/services/qspi/qspi_api.c:230-239 | The early exit leaves no dirty block if and only if none has a number at or above the offered count. |
| QspiReach.SkipReachableIff | HSS/services/qspi/qspi_api.c:224-275 | From a fresh device some writes and a flush without faults leave a dirty block if and only if some bad block lies below the count of good blocks. |
| QspiFlush.FlushUnderFaults | HSS/services/qspi/qspi_api.c:224-275 | The exact state after a flush under any faults: the dirty blocks before the first failing erase are clean and erased once, and hold the cached bytes with the missed bits set. |
| QspiFlush.FlushedAre | HSS/services/qspi/qspi_api.c:239-260 | A flush goes by increasing block number: it stores exactly the dirty blocks with no failing erase among the dirty blocks up to them. |
| QspiFlush.FlushKeepsLogical | HSS/services/qspi/qspi_api.c:504-513 | A flush never changes what the device shows, whatever fails. |
| QspiFlush.FlushRefines | HSS/services/qspi/qspi_api.c:504-513 | If nothing fails, a flush makes the flash equal the device's contents, leaves nothing dirty, and erases each dirty block once and no other. |
| QspiFlush.FlushCleansIff | HSS/services/qspi/qspi_api.c:257-260 | Nothing is dirty after a flush if and only if no dirty block's erase fails; what is left then is passed over by every later flush until something is written. |
| QspiFlush.FlushCoherentIff | HSS/services/qspi/qspi_api.c:257-269 | The device is coherent after a flush if and only if no dirty block's erase fails and programming misses no bit that a dirty byte needs cleared. |
| QspiFlush.RunRefinesArray | HSS/services/qspi/qspi_api.c:471-513 | Every sequence of reads, writes and flushes among the first k blocks returns what a plain array would, whichever erases fail and whatever programming misses. |
| QspiFlush.RunTracksDirty | HSS/services/qspi/qspi_api.c:471-513 | If no flush fails the device stays coherent and its dirty blocks are those written since the last flush. |
| QspiFlush.FlushAfterRun | HSS/services/qspi/qspi_api.c:504-513 | A flush after any such sequence stores the array and erases exactly the blocks written since the flush before, each once. |
| QspiFlush.FreshIsCoherent | HSS/services/qspi/qspi_api.c:339-366 | A device just initialized holds what its flash holds, and is coherent for its first k blocks if and only if none of them is bad. |
| QspiDevice.Device.constructor | HSS/services/qspi/qspi_api.c:283-379 | Empty descriptors and a map built from the bad list. |
| QspiDevice.Device.PhysicalBlock | HSS/services/qspi/qspi_api.c:162-174 | The lookup inside a device changes nothing. |
| QspiDevice.Device.FillOne | HSS/services/qspi/qspi_api.c:179-191 | One block of the demand loop. |
| QspiDevice.Device.DemandCopy | HSS/services/qspi/qspi_api.c:176-193 | The loop computes the specified fill. |
| QspiDevice.Device.ReadBlock | HSS/services/qspi/qspi_api.c:471-483 | The driver's read is the specified one, in result and state. |
| QspiDevice.Device.WriteBlock | HSS/services/qspi/qspi_api.c:485-497 | The driver's write is the specified one. |
| QspiDevice.Device.FlashEraseSectors | HSS/services/qspi/qspi_api.c:196-221 | Erasing all 64K sectors of a small-page part erases the whole block and nothing else. |
| QspiDevice.Device.CountDirty | HSS/services/qspi/qspi_api.c:230-234 | Counts the dirty descriptors below the offered count. |
| QspiDevice.Device.StoreOne | HSS/services/qspi/qspi_api.c:251-269 | Erase, then program, then mark clean even if bits were missed; a failed erase leaves the block as it was. |
| QspiDevice.Device.CopyCacheToFlash | HSS/services/qspi/qspi_api.c:224-275 | The write-back loop with its early exit computes the specified one. |
| QspiDevice.Device.FlushWriteBuffer | HSS/services/qspi/qspi_api.c:504-513 | The driver's flush is the specified one, for any failing erases and missed bits. |
| StateMachine.RunsBracketed | HSS/application/hart0/hss_state_machine.c:50-138 | Every run without a call whose hooks write the state has a trace entry handler+ exit entry .., whatever is written to the state between calls. |
| StateMachine.NoisyHookBreaks | HSS/application/hart0/hss_state_machine.c:93-95 | After a call whose hooks write the state, any next call is out of place in the trace. |
| StateMachine.BracketedIff | HSS/application/hart0/hss_state_machine.c:77-99 | For every run: the trace is well bracketed if and only if every call but the last runs no hooks or has hooks that leave the state alone. |
| StateMachine.ExecutionCount | HSS/application/hart0/hss_state_machine.c:93-101 | The execution count is the number of handler calls since the last entry, in 64 bits, on every run. |
| StateMachine.MaximumTime | HSS/application/hart0/hss_state_machine.c:103-109 | The recorded maximum bounds every call and is attained. |
| StateMachine.MaximumState | HSS/application/hart0/hss_state_machine.c:103-109 | The state recorded with the maximum is the one remembered after the first call that took so long. |
| StateMachine.LastCallRecorded | HSS/application/hart0/hss_state_machine.c:69-104 | The start time is the first nonzero clock reading, and entry time and duration are those of the last call. |
| StateMachine.Engine.constructor | HSS/application/hart0/hss_state_machine.c:61-62 | A machine has no previous state at first. |
| StateMachine.Engine.RunStateMachine | HSS/application/hart0/hss_state_machine.c:50-138 | One call computes the specified machine and passes the specified hook points. |
| StateMachine.RunStateMachines | HSS/application/hart0/hss_state_machine.c:168-176 | One round steps every machine once. |
| BootImage.PlannedIff | HSS/services/boot/hss_boot_service.c:569-624 | A chunk is downloaded if and only if it is the hart's and permitted, precedes the end of the table, and at most lastChunk of the hart's chunks precede it. |
| BootImage.PlanIndices | HSS/services/boot/hss_boot_service.c:569-624 | Chunks are downloaded in table order, each once. |
| BootImage.FirstToLastSelected | HSS/services/boot/hss_boot_service.c:552-571 | In particular every chunk of the hart from firstChunk to lastChunk. |
| BootImage.OwnedIff | HSS/services/boot/hss_boot_service.c:573 | The owner field names the hart in its low seven bits, bit 7 marks ancillary data, and anything above excludes all harts. |
| BootImage.WindowWritable | HSS/services/boot/hss_boot_service.c:573-590 | A permitted chunk can be written to the end of its padding if no byte of its window is first held by an entry other than the deciding one. |
| BootImage.PaddingEscapesCheck | HSS/services/boot/hss_boot_service.c:260-266 | With three decoded entries: a permitted region whose padding runs into a read-only entry, and a byte of it there. |
| BootMachine.HooksWriteStateIff | HSS/services/boot/hss_boot_service.c:727-740 | The hooks change the state if and only if the hart has an entry point and its own message fails on the way out of the hand-over state. |
| BootMachine.EventIffAllComplete | HSS/services/boot/hss_boot_service.c:806-832 | For every schedule and all restarts the completion event has been raised if and only if all four flags are set; flags never fall. |
| BootMachine.CompleteIffFound | HSS/services/boot/hss_boot_service.c:806-812 | A hart's flag is set if and only if some call of the run has found its machine in the complete state. |
| BootMachine.EventIffAllFound | HSS/services/boot/hss_boot_service.c:806-832 | So the event has been raised if and only if every hart's machine has been found there. |
| BootTrace.StepIsRun | HSS/application/hart0/hss_state_machine.c:77-99 | A step of a boot machine is a call of the engine that leaves and remembers the same states; its hooks are faithful exactly if the hand-over does not fail. |
| BootTrace.RunIsEngineRun | HSS/application/hart0/hss_state_machine.c:168-176 | For every schedule and all restarts the calls to one hart are a run of the engine. |
| BootTrace.BootTraceBracketedIff | HSS/services/boot/hss_boot_service.c:727-740 | After a call to a hart the trace of its hooks and handlers is well bracketed if and only if no earlier call to it had a failing hand-over. |
| BootMemory.ZeroInitKeepsProgress | HSS/services/boot/hss_boot_service.c:497-524 | One zero-init step zeroes only the hart's own region and advances the part of the table that is zero. |
| BootMemory.DownloadKeepsProgress | HSS/services/boot/hss_boot_service.c:558-637 | One download step writes only the hart's own padded window, takes original image bytes, and harms no chunk finished before. |
| BootMemory.OtherKeepsProgress | HSS/services/boot/hss_boot_service.c:487-637 | A step of one hart harms no other hart's progress. |
| BootMemory.MemoryCorrect | HSS/services/boot/hss_boot_service.c:487-637 | For every schedule and all restarts: once a hart has loaded, its chunks hold the image bytes and its zero-init bytes outside windows are 0; outside windows and zeroed regions nothing has changed. |
| BootProgress.LoadedAfterExactly | HSS/services/boot/hss_boot_service.c:338-637 | In every interleaving a hart whose calls are cooperative has loaded if and only if it has had the number of calls its tables ask for, one per descriptor and per sub-chunk. |
| BootProgress.IneffectiveCallWaits | HSS/services/boot/hss_boot_service.c:338-785 | A call that is not ready, unsent, unacknowledged or DDR-blocked and does not fail leaves state, flag, memory and event alone. |
| BootProgress.LoadedAfterEffective | HSS/services/boot/hss_boot_service.c:338-637 | In every interleaving, with other harts restarted at will and whatever is slow, a hart whose set-up does not fail has loaded if and only if its effective calls have reached that number. |
| BootAgain.RestartLoadsAgain | HSS/services/boot/hss_boot_service.c:854-890 | After any history a restarted hart that was not handing over loads again if and only if its effective calls have reached that number, and then its memory is in place. |
| BootAgain.RestartLoadsAfterExactly | HSS/services/boot/hss_boot_service.c:854-890 | With cooperative calls, exactly when it has had that number of them, from whatever state. |
| BootAgain.HandingOverIgnores | HSS/services/boot/hss_boot_service.c:862-865 | A restart of a hart that is handing over changes nothing. |
| BootAncillary.AncillaryIsFirst | HSS/services/boot/hss_boot_service.c:592-597 | Once loaded a hart has recorded the address of the first ancillary chunk it downloads, one at address 0 apart. |
| BootOutcome.EventMeansLoaded | HSS/services/boot/hss_boot_service.c:338-832 | For every order of calls and restarts, whatever fails: once the completion event has been raised, a hart that is not booting again has finished its download if and only if it does not skip its boot and no call since its last restart failed in its set-up; then its memory is in place. |
| BootOutcome.EventWithoutDownload | HSS/services/boot/hss_boot_service.c:338-832 | From power-on, with an image registered all along: a request that restarts all harts and five calls to each whose protection set-up times out raise the event with no download and no byte of memory changed. |
| BootOutcome.SkippedWritesNothing | HSS/services/boot/hss_boot_service.c:473-482 | If all harts skip their boot no run of calls and restarts writes a byte or finishes a download. |
| BootOutcome.NoEventOnceStuck | HSS/services/boot/hss_boot_service.c:701-725 | A hart stuck in the hand-over state stays there under all calls and restarts, and the event is never raised. |
| BootOutcome.StuckIffLoaded | HSS/services/boot/hss_boot_service.c:701-725 | From the first boot on, in every run of calls and restarts: a hart with chunks but no entry point is stuck there if and only if it has finished its download and its flag was never set. |
| BootOutcome.NeverAfterDownload | HSS/services/boot/hss_boot_service.c:338-832 | So once such a hart has had the cooperative calls its tables ask for, no later calls or restarts raise the event. |
| BootAnswer.ErrorIffFails | HSS/services/boot/hss_boot_service.c:338-785 | A call leaves a machine in the error state if and only if it finds no image, cannot deliver a message it has to send, or finds a timer run out. |
| BootAnswer.AnswerIff | HSS/services/boot/hss_boot_service.c:755-785 | From the wait state a machine goes on to complete if and only if it is answered in time, and otherwise stays or fails. |
| BootAnswer.IdleIffAllComplete | HSS/services/boot/hss_boot_service.c:821-832 | A machine found complete goes idle if and only if all four flags are set. |
| BootAnswer.AnsweredUnlessFailed | HSS/services/boot/hss_boot_service.c:701-785 | In every run of calls and restarts a hart with chunks that does not skip its boot, once its flag is set, was answered in time if and only if no call since its last restart failed. |
| BootAnswer.EventMeansAnswered | HSS/services/boot/hss_boot_service.c:806-832 | So once the event has been raised this holds for every such hart that is not booting again. |
| BootCompletion.FlagAfterEffective | HSS/services/boot/hss_boot_service.c:338-832 | In every interleaving in which no call to a hart fails, whatever is slow, its flag is set if and only if it skips its boot, has no chunks or has an entry point, and its effective calls have reached the number asked for. |
| BootCompletion.EventAfterEffective | HSS/services/boot/hss_boot_service.c:338-832 | And the event has been raised if and only if this holds for all four harts. |
| BootCompletion.FlagAfterExactly | HSS/services/boot/hss_boot_service.c:338-832 | In every interleaving a hart whose calls are delivered has its flag set if and only if it skips its boot, has no chunks or has an entry point, and has had the number of calls that its tables and peers ask for. |
| BootCompletion.EventAfterExactly | HSS/services/boot/hss_boot_service.c:338-832 | In every interleaving of delivered calls the event has been raised if and only if this holds for all four harts. |
| BootCompletion.SkippedEvent | HSS/services/boot/hss_boot_service.c:473-482 | If all harts skip their boot, four delivered calls to each raise the event over untouched memory. |
| BootCompletion.BootHartsEventIff | HSS/init/hss_boot_init.c:181-199 | From power-on, after one boot request for all harts and any delivered calls: the event has been raised if and only if every entry-point class is led by a hart with chunks, every hart skips its boot or can finish, and each has had its calls. |
| BootCustom.AloneComputesWhole | HSS/services/boot/hss_boot_service.c:487-637 | A machine stepped alone leaves exactly the memory of one uninterrupted download. |
| BootCustom.SelectionsAgree | HSS/services/boot/hss_boot_service.c:1149-1177 | Custom boot and machine select the same chunks if and only if exactly the hart's chunks within the count are free of the ancillary flag. |
| BootCustom.TargetIsLast | HSS/services/boot/hss_boot_service.c:1118-1129 | The target of the custom boot has chunks and no higher-numbered hart has; there is none if and only if no hart has chunks. |
| BootCustom.MachineMatchesCustom | HSS/services/boot/hss_boot_service.c:1104-1177 | Then a machine running alone leaves the memory that the custom boot leaves. |
| BootService.Service.constructor | HSS/services/boot/hss_boot_service.c:168-173 | Machines start idle with empty local data. |
| BootService.Service.DoDownloadChunk | HSS/services/boot/hss_boot_service.c:269-278 | Moves the given bytes of the chunk to its place. |
| BootService.Service.DoZeroInitChunk | HSS/services/boot/hss_boot_service.c:280-288 | Zeroes the region and nothing else. |
| BootService.Service.ZeroInitChunksHandler | HSS/services/boot/hss_boot_service.c:497-524 | The handler computes the zero-init step in place. |
| BootService.Service.IsMine | HSS/services/boot/hss_boot_service.c:573-574 | Ownership with the ancillary flag masked, and write permission. |
| BootService.Service.DownloadSubChunk | HSS/services/boot/hss_boot_service.c:584-609 | One sub-chunk moved; the chunk ends when the offset exceeds the size. |
| BootService.Service.DownloadChunksHandler | HSS/services/boot/hss_boot_service.c:558-637 | The handler computes the download step in place. |
| BootService.Service.OpenSbiInitHandler | HSS/services/boot/hss_boot_service.c:701-725 | The handler messages one peer per call and then waits. |
| BootService.Service.CompleteHandler | HSS/services/boot/hss_boot_service.c:821-832 | Raises the event exactly if all four flags are set. |
| BootService.Service.RunStateMachine | HSS/application/hart0/hss_state_machine.c:77-99 | One engine call on a boot machine is one step of the model. |
| BootService.Service.RunStateMachines | HSS/application/hart0/hss_state_machine.c:168-176 | A round is a run of four calls, so the theorems about runs apply. |
| BootService.Service.FindTarget | HSS/services/boot/hss_boot_service.c:1118-1124 | The last hart with chunks of its own. |
| BootService.Service.CustomZero | HSS/services/boot/hss_boot_service.c:1132-1143 | The loop zeroes the target's chunks up to the end of the table. |
| BootService.Service.CustomDownload | HSS/services/boot/hss_boot_service.c:1145-1177 | The loop computes the whole download of the selected chunks. |
| BootService.Service.Custom | HSS/services/boot/hss_boot_service.c:1104-1194 | Fails without an image or a hart with chunks, leaving memory alone; otherwise leaves the memory of a whole download. |
| BootService.Service.BootUsingHartBitmask | HSS/services/boot/hss_boot_service.c:854-890 | Puts exactly the machines named, except those handing over, in the first state and not loaded, with their other fields and all other machines unchanged. |
| BootService.Service.BootSetOf | HSS/services/boot/hss_boot_service.c:938-949 | The harts with the source's entry point. |
| BootService.Service.RestartCoresUsingBitmask | HSS/services/boot/hss_boot_service.c:921-960 | Puts exactly the harts of the union of the entry-point classes whose lowest-numbered requested hart has chunks back in the first state, except those handing over, no hart twice; succeeds if and only if the image is valid and the union is not empty. |
| BootService.Service.RestartCore | HSS/services/boot/hss_boot_service.c:892-919 | One hart puts its class back in the first state if it has chunks; a request for all harts puts all back; those handing over stay as they are. |
| BootSets.SingleRequest | HSS/services/boot/hss_boot_service.c:930-956 | A request for one hart concerns its class if the hart has chunks, and nothing otherwise. |
| BootSets.AllRestartedIff | HSS/services/boot/hss_boot_service.c:930-956 | A request for all harts restarts them all if and only if the lowest-numbered hart of every entry-point class has chunks. |
| BootSets.RequestsRestart | HSS/services/boot/hss_boot_service.c:859-886 | Restarting a set of harts is a sequence of restart requests, so the theorems about runs apply. |
| Ledger.HartLedger.constructor | HSS/services/opensbi/platform.c:116-128 | Nobody owns a hart at first. |
| Ledger.HartLedger.RegisterHart | HSS/services/opensbi/platform.c:403-410 | Sets the owner and the pending mark of that hart only. |
| Ledger.HartLedger.DeregisterHart | HSS/services/opensbi/platform.c:412-419 | Clears them and the hart's use of OpenSBI. |
| Ledger.HartLedger.IsLastHartReady | HSS/services/opensbi/platform.c:467-478 | True exactly if no hart is pending. |
| Ledger.HartLedger.RegisterBootHart | HSS/services/opensbi/platform.c:480-492 | Records the boot hart's start, mask and permissions. |
| Ledger.HartLedger.RegisterHarts | HSS/services/boot/hss_boot_service.c:367-422 | A primary hart takes over every hart with its entry point that uses OpenSBI and drops all that skip it; the self-ownership asserted on the way always holds. |
| Reboot.OwnerInClass | HSS/services/boot/hss_boot_service.c:376-392 | After any registrations an owner is the last primary hart of the same entry point to register. |
| Reboot.SameDomainIff | HSS/services/opensbi/platform.c:443-453 | Once every primary machine has registered: two harts share a domain if and only if both are owned and share an entry point, or both are unowned. |
| Reboot.DomainsAreClasses | HSS/services/opensbi/platform.c:443-453 | Harts that use OpenSBI in classes with a primary hart share a domain if and only if their entry points are equal. |
| Reboot.PermissionFollowsFlag | HSS/services/boot/hss_boot_service.c:414-419 | Cold reboot permission is the image flag of a hart that has registered as boot hart; its recorded mask is its boot set. |
| Reboot.RecordFollowsImage | HSS/services/opensbi/platform.c:403-492 | After any registrations from an empty ledger: a hart is pending if and only if it is owned, is off OpenSBI if and only if it skips it and some primary hart has registered, and a boot hart's start address and cold and warm permissions are those of its image entry. |
| Reboot.ColdIff | HSS/services/reboot/reboot_service.c:145-165 | In terms of the image: cold by configuration, or if allowed at all because a fired hart has registered as boot hart with the cold flag. |
| Reboot.DomainOf | HSS/services/reboot/reboot_service.c:171-181 | The inner loop collects the domain of the hart. |
| Reboot.WatchdogReboot | HSS/services/reboot/reboot_service.c:145-182 | Cold if and only if configured so or a fired hart is allowed one; otherwise the restart mask is the union of the domains that meet the fired harts. |
| Reboot.RestartCovers | HSS/services/reboot/reboot_service.c:158-182 | In terms of the image: boot sets for owned harts, all unowned harts together. |
| Reboot.RestartIsBootSetIff | HSS/services/reboot/reboot_service.c:158-182 | A watchdog restarts exactly the hart's boot set if and only if that set is all owned, or all unowned with no unowned hart elsewhere. |

## Left out

- All acknowledgements before leaving the wait state: the check overwrites its result for each peer, so the code does not promise it.
- The wait timeout: its start time is refreshed at every call, so it is an oracle answer here.
- Cached QSPI access across bad blocks and GPT entries that straddle sectors: not supported by the code; the exact conditions are stated above.
- The constant CRC table used when the table is not computed.
- GPT arithmetic beyond 64 bits. Searching and listing are modelled for entry sizes that divide the sector size. This is a hypothesis of the reader: section 5.3.2 of the UEFI Specification also allows larger entries, which always straddle sectors and are misread.
- Wrap-around of addresses in chunk placement and in the permission checks.
- Names, privilege modes, arguments and reset reasons recorded for OpenSBI, the OpenSBI domains built from the ledger, and the messages sent by a warm restart.
- The memory tests on a region of no words, and user interruption of a running test.
- Cache flushing by the scrubber, the choice between plain and atomic reads, and an empty table of regions.
- Uncached QSPI access, chip erase, 32-bit overflow of QSPI sizes, and the last status of a multi-sector erase.
- The remoteproc shortcut into the hand-over state, jumps of the custom flow, code signing and compressed images.
- The IPI queues, OpenSBI, the hardware drivers, board set-up, logging, progress displays, performance counters and watchdog tickles.
- Gpt.HeaderBurstRejected: excludes a change of the length field and a window that takes in the stored checksum together with other bytes, because a checksum promises nothing about those.
