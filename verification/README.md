# Serial bootloader: journal, Flash Service, RAM attach, framing, executor

This project models the parts of the bootloader in which several functions, both sides of the link, or
whole runs have to agree, and proves that they do.

- **Metadata journal.** Sixteen 64-word Flash slots, the two-pass scan, the three record builders, and the
  appends of the Flash Service. Runs contain commands, the App's own confirmation, boots, erases, and
  power loss after any number of record words.
- **Flash Service.** The command handlers as one object updated in place (`FlashServiceModel`), each proved
  equal to a transition function (`ServiceSpec`), about which acceptance, effect, session and verify-flag
  theorems are proved. The Flash port may succeed, store a prefix and fail, or erase some sectors and fail.
- **RAM load and attach.** The boot core's handlers over a memory array (`BootAlgorithmModel`), proved equal
  to `CoreSpec`; the publish words over whole runs; the PC's image patcher and packetisers; and the
  theorem that connects builder and validator.
- **Flash upgrade.** Erase, program, verify and publish as the PC drives them, against the service; then the
  first attempt, RUN, the App's confirmation and the automatic decision.
- **Wire framing.** The core's magic automaton, receiver and sender; the PC's resynchronising reader.
- **Executor.** The PC's command lease as a state machine over any number of threads, and the class whose
  critical sections are its steps.

Words, bytes and 32-bit counters are ranges of `int`; wrap-around is written out with `%`. CRC-32 is the
algorithm of section 8 of RFC 1952, which the PC takes from zlib; both sides share one specification.
`None` stands for the `ValueError` a Python constructor or function raises.

What is assumed of code outside the model: a port call that answers OK stored exactly the given words; a
call that fails may have stored a prefix of them or erased some of the selected sectors, and a torn write
keeps a prefix of whole words; the service's initialisation writes only its runtime words, its other calls
these and its mutable data; the link delivers bytes in order. `pad_write_data` fills with 0xFFFF to a
multiple of eight words.

Places where a property one might expect is false of the code. Each has its exact condition below.

- The verify flag survives an ERASE or PROGRAM_DATA that fails after it changed Flash. In any state it stays
  true exactly under `StaleFlag.FailedEraseExactly` and `StaleFlag.FailedProgramExactly`; two runs of the
  device reach a stale flag, and IMAGE_VALID is accepted from both (`StaleFlag.StaleImagesArePublished`).
- A service image whose immutable range passes 0x016000 can be overwritten while published
  (`CoreRuns.WindowProtectsExactly`), one that passes 0x015B00 by the service's own mutable data
  (`CoreRuns.CallsKeepServiceExactly`). `PastWindow.LongServiceGoesStale` is a run of commands that does it.
- A re-attach refused by the checks in RAM leaves the old service active but unpublished, one refused for the
  request itself leaves it published (`CoreAnswers.RefusedAttachUnpublishes`); the same run ends there.
- Inside one data command that carries both publish words they read VALID for a moment
  (`StoreOrder.PublishedDuringData`), whatever RAM holds (`StoreOrder.PublishWordsCanReadValid`).
- An action of the executor can start after `invalidate`, because it runs outside the lock
  (`Executor.ActionAfterInvalidate`).
- At the last sequence number a completed BOOT_ATTEMPT or APP_CONFIRMED append fails its own check
  (`Rescan.AttemptRescanExactly`, `Rescan.ConfirmRescanExactly`); an IMAGE_VALID append passes it only in a
  journal with no image and no record numbered 0 (`Rescan.ImageRescanExactly`). `LastSequence` holds a journal
  for each case; no run of the device reaches them.
- Noise that holds no magic can still hide the frame behind it: exactly when it ends in the first three bytes
  of a magic, which the frame completes (`Framing.ReceiveInvertsSend`).
- Packets are cut without regard to erase sectors, and the port refuses a packet across a boundary: an image
  can be transferred exactly when in every merged block every sector starts a whole number of packets behind
  its start (`Sectors.PlacementExactly`, `Upgrade.PcImageIsTransferable`).
- Replacing words can raise for an image that reaches past the 32-bit address space (`ServiceImage.ReplaceWords`,
  with such an image in `ServiceImage.ReplacingCanRaise`), and so can the final header patch
  (`ServicePatch.HeaderStaysPatchable`, `ServicePatch.HeaderPatchCanRaise`).

## Model

| member | source | states |
|---|---|---|
| Crc.UpdateByte32 | dsp/bootloader_common/src/boot_crc32.c:5-22 | The eight-step loop is eight shifts of the specified CRC-32 register |
| Crc.CalcWords32 | dsp/bootloader_common/src/boot_crc32.c:36-52 | The word loop computes the CRC-32 fold over exactly the first `wordCount` words |
| Crc.Crc32FoldConcat | dsp/bootloader_common/src/boot_crc32.c:36-52 | Feeding two stretches in turn is feeding their concatenation |
| Crc.Crc32WordInjective | dsp/bootloader_common/src/boot_crc32.c:24-29 | A word step loses nothing: equal results and equal words force equal registers, and the other way round |
| Crc.Crc32DetectsOneWord | dsp/bootloader_common/src/boot_crc32.c:36-52 | Any change of exactly one word changes the CRC-32, for every length and position |
| Crc.CrcWords16 | dsp/bootloader_common/src/boot_protocol.c:23-33 | The nested loops compute the specified CRC-16 of the words |
| Crc.Crc16WordInjective | dsp/bootloader_common/src/boot_protocol.c:3-21 | The CRC-16 word step is injective in the register and in the word |
| Crc.Crc16DetectsOneWord | dsp/bootloader_common/src/boot_protocol.c:23-33 | Any change of exactly one word changes the CRC-16 |
| Crc.KnownValues | dsp/bootloader_common/src/boot_crc32.c:5-52 | Both CRCs of concrete words are these numbers; with linearity and the table entries that fixes polynomial, start value, bit and byte order and final inversion |
| Record.ValidateRecord | dsp/bootloader_common/src/boot_metadata_scan.c:167-215 | The in-order checks accept exactly the slots that satisfy `Valid` and return exactly their parsed fields |
| Record.IsErasedRecord | dsp/bootloader_common/src/boot_metadata_scan.c:116-134 | True exactly when all 64 words are erased |
| Record.ValidRecordDetectsOneWord | dsp/bootloader_common/src/boot_metadata_scan.c:198-202 | A record that validates never validates after any one of its 64 words changes |
| Record.EncodeParses | dsp/bootloader_common/src/boot_metadata_build.c:26-62 | What a builder writes parses back to its input and validates exactly when its fields are in range |
| RecordLayout.ValidRecordMeans | dsp/bootloader_common/src/boot_metadata_scan.c:136-215 | A slot is erased, or accepted, exactly when its words hold the listed values: every check in numbers |
| RecordLayout.ParsedFields | dsp/bootloader_common/src/boot_metadata_scan.c:35-67 | Every field of an accepted record, by word |
| RecordLayout.RecordWords | dsp/bootloader_common/src/boot_metadata_build.c:26-62 | Every word of an encoded record, the blank rest and the CRC included |
| Builders.BuildImageValidRecord | dsp/bootloader_common/src/boot_metadata_build.c:13-63 | The array ends up as the encoding of the IMAGE_VALID entry for the request |
| Builders.BuildBootAttemptRecord | dsp/bootloader_common/src/boot_metadata_build.c:65-107 | The array ends up as the encoding of the BOOT_ATTEMPT entry bound to the summary |
| Builders.BuildAppConfirmedRecord | dsp/bootloader_common/src/boot_metadata_build.c:109-150 | The array ends up as the encoding of the APP_CONFIRMED entry bound to the summary |
| Scan.ScanLoadedRecords | dsp/bootloader_common/src/boot_metadata_scan.c:266-405 | Both passes together compute the specified summary of arbitrary slot contents |
| Scan.CollectRecords | dsp/bootloader_common/src/boot_metadata_scan.c:294-355 | First pass: slot counters, duplicate flag, newest record and newest image |
| Scan.CollectFollowers | dsp/bootloader_common/src/boot_metadata_scan.c:368-401 | Second pass: number of attempts and newest confirmation that follow the image |
| ScanMeaning.ViewMeaning | dsp/bootloader_common/src/boot_metadata_scan.c:266-405 | On any slots: trusted exactly when valid sequence numbers are distinct and an image record exists; then each of its fifteen fields is that of the image of greatest number, with its later matching attempts and its newest confirmation |
| ScanMeaning.SlotsMeaning | dsp/bootloader_common/src/boot_metadata_scan.c:294-316 | Valid, invalid and erased slots partition the scanned slots, and the next index is the first erased one |
| ScanMeaning.LatestMeaning | dsp/bootloader_common/src/boot_metadata_scan.c:330-348 | The latest number and type are those of the valid record of greatest number; an untrusted summary claims nothing else |
| ScanMeaning.StateMeaning | dsp/bootloader_common/src/boot_metadata_scan.c:350-404 | The four scan states, each exactly in terms of the slots |
| ScanMeaning.SlotOrderIsIrrelevant | dsp/bootloader_common/src/boot_metadata_scan.c:266-405 | With distinct numbers, permuting slots changes nothing but the next free index |
| Crash.TornReading | dsp/bootloader_common/src/boot_metadata_scan.c:35-67 | However far programming got, a slot reads as unusable or as exactly the record being written |
| Crash.CrashAtomicity | dsp/bootloader_common/src/boot_metadata_scan.c:167-215 | For every journal, record and cut 0..64, a scan after a torn append gives the boot fields of before or of after, never a mixture |
| Rescan.CompletedAppend | dsp/flash_service_lib/src/boot_flash_service_lib.c:412-443 | A completed append of a later entry adds exactly that entry to what a scan sees, whatever slot it used |
| Rescan.AttemptRescanExactly | dsp/flash_service_lib/src/boot_flash_service_lib.c:556-564 | On arbitrary Flash a completed BOOT_ATTEMPT append passes its own check exactly when the sequence number does not wrap |
| Rescan.ConfirmRescanExactly | dsp/flash_service_lib/src/boot_flash_service_lib.c:632-646 | The same for APP_CONFIRMED |
| Rescan.ImageRescanExactly | dsp/flash_service_lib/src/boot_flash_service_lib.c:772-784 | A completed IMAGE_VALID append passes its check exactly when its number does not wrap, or wraps to a free number in a journal without an image |
| LastSequence.AttemptFailsAtLast | dsp/flash_service_lib/src/boot_flash_service_lib.c:556-564 | A journal whose image has the last number: the next BOOT_ATTEMPT is admitted and fails its check |
| LastSequence.ConfirmFailsAtLast | dsp/flash_service_lib/src/boot_flash_service_lib.c:632-646 | A journal whose attempt has the last number: the confirmation is admitted and fails its check |
| LastSequence.ImageFailsAtLast | dsp/flash_service_lib/src/boot_flash_service_lib.c:772-784 | The next IMAGE_VALID after an image with the last number is admitted and fails its check |
| LastSequence.ImagePassesWithoutImage | dsp/flash_service_lib/src/boot_flash_service_lib.c:748-784 | In a journal of one attempt with the last number IMAGE_VALID is numbered 0 and passes its check |
| JournalRuns.RunKeepsInvariant | dsp/flash_service_lib/src/boot_flash_service_lib.c:445-467 | The inductive invariant over every run of appends, confirmations, torn writes and erases: slots fill from the front, numbers are 1..v, and the life cycle of the current image is well formed |
| JournalRuns.RunsNumberRecords | dsp/flash_service_lib/src/boot_flash_service_lib.c:746-764 | In every run valid records carry 1..v in slot order, the latest number is the record count, and no duplicate is ever reported |
| JournalRuns.RunsObeyBootPolicy | dsp/bootloader_user/src/boot_user_auto_boot.c:14-44 | In every run: attempts within the limit, confirmed implies attempted, bootable exactly when trusted and confirmed, bad entry and exceeded limit unreachable |
| JournalRuns.RunsDecideExactly | dsp/bootloader_core/src/boot_algorithm.c:676-726 | In every run RUN is accepted exactly for the trusted entry point after an attempt, and the automatic decision is fixed by trust, attempts and confirmation |
| JournalRuns.AutoBootHasHistory | dsp/bootloader_user/src/boot_user_auto_boot.c:14-44 | An automatically booted image was made valid, then attempted, then confirmed, with one identity and increasing numbers |
| JournalRuns.RunsNeverFailVerification | dsp/flash_service_lib/src/boot_flash_service_lib.c:556-564 | In every run each of the three post-write scans succeeds |
| JournalRuns.RunAcceptedAfterAttempt | dsp/flash_service_lib/src/boot_flash_service_lib.c:510-564 | Directly after an accepted BOOT_ATTEMPT append RUN of the journal's entry point is accepted, on arbitrary Flash below the last number |
| FlashServiceModel.FlashSession.ResetSession | dsp/flash_service_lib/src/boot_flash_session_lib.c:3-13 | All session fields return to idle |
| FlashServiceModel.FlashService.BootInit | dsp/flash_service_lib/src/boot_flash_service_lib.c:787-813 | New state and status are those of the specification; Flash is untouched |
| FlashServiceModel.FlashService.EnsureFlash | dsp/flash_service_lib/src/boot_flash_service_lib.c:19-47 | Flash is initialised once; failure gives the caller's status and changes nothing |
| FlashServiceModel.FlashService.HandleErase | dsp/flash_service_lib/src/boot_flash_service_lib.c:66-123 | State, Flash and status after the in-place handler equal the specification, whose acceptance and effect `ServiceAnswers.EraseExactly` states |
| FlashServiceModel.FlashService.HandleBegin | dsp/flash_service_lib/src/boot_flash_service_lib.c:125-177 | The same for BEGIN |
| FlashServiceModel.FlashService.HandleData | dsp/flash_service_lib/src/boot_flash_service_lib.c:179-300 | The same for PROGRAM_DATA and VERIFY_DATA, including a port call that stops part-way |
| FlashServiceModel.FlashService.HandleEnd | dsp/flash_service_lib/src/boot_flash_service_lib.c:302-351 | The same for END |
| FlashServiceModel.FlashService.ProgramMetadataRecord | dsp/flash_service_lib/src/boot_flash_service_lib.c:412-443 | Exactly the port's share of the record reaches the slot, with the status the port gives |
| FlashServiceModel.FlashService.HandleBootAttemptAppend | dsp/flash_service_lib/src/boot_flash_service_lib.c:469-565 | The scan, admission, build, write, rescan sequence equals the specified append |
| FlashServiceModel.FlashService.ConfirmJournal | dsp/flash_service_lib/src/boot_flash_service_lib.c:567-647 | The same for the confirmation, with or without a stated identity |
| FlashServiceModel.FlashService.ConfirmCurrentImage | dsp/flash_service_lib/src/boot_flash_service_lib.c:879-885 | The App's own confirmation is the one without a stated identity |
| FlashServiceModel.FlashService.HandleMetadataAppendRecord | dsp/flash_service_lib/src/boot_flash_service_lib.c:695-785 | Dispatch of the three appends and the IMAGE_VALID path equal the specification |
| FlashServiceModel.FlashService.HandleCommand | dsp/flash_service_lib/src/boot_flash_service_lib.c:815-877 | The whole dispatcher equals the transition function |
| ServiceAnswers.EraseExactly | dsp/flash_service_lib/port/f28377d_cpu1/src/boot_flash_port_f28377d_cpu1.c:245-325 | On a working port: OK exactly for three words, no flags and a non-empty mask of the sectors B to N; then exactly the words between the literal limits of the sectors whose bits are set are erased, the journal with bit 1, and no session or verify flag survives; a refusal changes nothing |
| SectorMap.SectorMeans | dsp/flash_service_lib/port/f28377d_cpu1/include/flash_programming_c28.h:41-81 | An address lies in sector i exactly between the literal start and end of that sector, for all 14 |
| SectorMap.SelectedMeans | dsp/flash_service_lib/port/f28377d_cpu1/src/boot_flash_port_f28377d_cpu1.c:266-281 | The sectors a mask selects are those whose bit is set |
| SectorMap.AllowedMeans | dsp/flash_service_lib/port/f28377d_cpu1/src/boot_flash_port_f28377d_cpu1.c:203-229 | The port takes exactly the ranges of the App area within one sector, in units of eight words to be programmed |
| ServiceTable.EraseAnswers | dsp/flash_service_lib/src/boot_flash_service_lib.c:66-123 | On any port: which answer belongs to which request, mask and state, in numbers, and what happens to session and flags |
| ServiceTable.PartialErase | dsp/flash_service_lib/port/f28377d_cpu1/src/boot_flash_port_f28377d_cpu1.c:245-325 | An erase that stops part-way has erased exactly the selected sectors before the stop |
| ServiceTable.BeginAnswers | dsp/flash_service_lib/src/boot_flash_service_lib.c:125-177 | The answers of PROGRAM_BEGIN and VERIFY_BEGIN and the session they open, in numbers |
| ServiceTable.DataAnswers | dsp/flash_service_lib/src/boot_flash_service_lib.c:179-300 | After every run: which refusal of a data command belongs to which payload and session, and what it leaves |
| ServiceTable.DataWrites | dsp/flash_service_lib/src/boot_flash_service_lib.c:249-300 | What a data command that reaches Flash stores on any port, word by word, and its answer |
| ServiceTable.EndAnswers | dsp/flash_service_lib/src/boot_flash_service_lib.c:302-351 | The answers of PROGRAM_END and VERIFY_END; only an accepted VERIFY_END sets the flag |
| ServiceTable.InitAnswers | dsp/flash_service_lib/src/boot_flash_service_lib.c:787-813 | Initialisation succeeds exactly for this device and CPU with a packet size, and starts everything over |
| ServiceTable.Dispatch | dsp/flash_service_lib/src/boot_flash_service_lib.c:815-877 | Each command code reaches its handler, and only on an initialised service |
| ServiceAnswers.DataExactly | dsp/flash_service_lib/src/boot_flash_service_lib.c:206-300 | After every run, on a working port: a data command answers OK exactly for the block that follows those accepted so far, within the declared counts, placed in one sector, and for VERIFY held by Flash; a refusal ends the session and leaves Flash alone |
| ServiceAnswers.AttemptExactly | dsp/flash_service_lib/src/boot_flash_service_lib.c:510-552 | In every reachable journal: accepted exactly for the trusted image that is confirmed or has attempts and a slot left; then exactly one attempt is counted and nothing else of the summary moves |
| ServiceAnswers.ConfirmExactly | dsp/flash_service_lib/src/boot_flash_service_lib.c:580-627 | Accepted exactly for the trusted image after an attempt; then exactly the confirmation is recorded |
| ServiceAnswers.RefusedAppendKeepsFlash | dsp/flash_service_lib/src/boot_flash_service_lib.c:695-745 | A refused append changes neither service nor Flash |
| ServiceAnswers.AppendCommandExactly | dsp/flash_service_lib/src/boot_flash_service_lib.c:695-785 | On the device, after every run, METADATA_APPEND_RECORD answers OK exactly when its payload is well formed and the journal allows that record |
| ServiceAnswers.ConfirmationMakesBootable | dsp/flash_service_lib/src/boot_flash_service_lib.c:879-885 | On the device the App's confirmation succeeds exactly for a trusted, attempted image, and then the image is confirmed |
| JournalWords.ImageAppendExactly | dsp/flash_service_lib/src/boot_flash_service_lib.c:746-784 | On the device an accepted IMAGE_VALID append writes these 64 words, in terms of the payload words and the service's device and CPU, into the first free slot, leaves the rest of Flash alone, and is what the next scan reports, field by field |
| JournalWords.AttemptRepeatsImage | dsp/bootloader_common/src/boot_metadata_build.c:65-107 | An admitted BOOT_ATTEMPT repeats words 10 to 27 of the image record, with the next number and the new count |
| JournalWords.ConfirmRepeatsImage | dsp/bootloader_common/src/boot_metadata_build.c:109-150 | An admitted APP_CONFIRMED repeats the same words, with the next number and the count as it is |
| ServiceTable.PayloadAnswers | dsp/flash_service_lib/src/boot_flash_service_lib.c:469-745 | Which payload of an append gets which answer before the journal is read, in numbers |
| ServiceTable.JournalAnswers | dsp/flash_service_lib/src/boot_flash_service_lib.c:510-627 | Over every reachable journal: which refusal, or earlier success, belongs to which state of the summary |
| ServiceTable.CommitAnswers | dsp/flash_service_lib/src/boot_flash_service_lib.c:412-467 | What an append does on any port: nothing, all 64 words, or a prefix; it answers OK exactly when the port call succeeds and the next scan shows the record, in summary fields |
| ServiceRuns.RunsKeepSession | dsp/flash_service_lib/src/boot_flash_service_lib.c:167-176 | In every reachable state the block index equals the processed packets, which are the accepted blocks in order; counts never exceed what was declared, so no subtraction underflows |
| ServiceRuns.EndAcceptsExactly | dsp/flash_service_lib/src/boot_flash_service_lib.c:331-350 | END is accepted exactly when the declared packets and words are exactly the blocks 0..n-1 that arrived |
| ServiceRuns.RunsStayCoherent | dsp/flash_service_lib/src/boot_flash_service_lib.c:120-121 | While the verify flag is set Flash equals every word of the last VERIFY session, in every run whose failing erase and program calls leave the App area alone; power loss may do anything |
| ServiceRuns.ImagesArePublishedVerified | dsp/flash_service_lib/src/boot_flash_service_lib.c:732-783 | IMAGE_VALID is written only while Flash holds every verified word, and success clears the flag |
| StaleFlag.FailedEraseExactly | dsp/flash_service_lib/src/boot_flash_service_lib.c:106-121 | In any state, after a failing ERASE the flag still tells the truth exactly when every verified word erased on the way had been verified as erased |
| StaleFlag.FailedProgramExactly | dsp/flash_service_lib/src/boot_flash_service_lib.c:270-298 | The same for PROGRAM_DATA: exactly when every word the failing call stored is the one that was verified there |
| StaleFlag.StaleImagesArePublished | dsp/flash_service_lib/src/boot_flash_service_lib.c:732-745 | Two runs from an erased device end with the flag set over changed Flash, and IMAGE_VALID is accepted there |
| ServiceJournal.ServiceRunIsJournalRun | dsp/flash_service_lib/src/boot_flash_service_lib.c:815-885 | What any run of boots, commands, App confirmations and power losses does to the journal is a run of the journal model |
| ServiceJournal.DeviceKeepsJournal | dsp/flash_service_lib/src/boot_flash_service_lib.c:445-467 | Numbering, limit and confirmation properties hold on the device after every run |
| ServiceJournal.AppendsPassTheirRescan | dsp/flash_service_lib/src/boot_flash_service_lib.c:772-784 | On the device an append whose port calls succeed never answers METADATA_WRITE_FAILED |
| ServiceJournal.RunFollowsAttempt | dsp/bootloader_core/src/boot_algorithm.c:676-726 | On the device RUN is accepted directly after a BOOT_ATTEMPT append that answered OK |
| ServiceJournal.DeviceBootHasHistory | dsp/bootloader_user/src/boot_user_auto_boot.c:40-44 | On the device an automatically booted image has its three records in order |
| ServiceJournal.DeviceNeverExceedsLimit | dsp/bootloader_core/src/boot_algorithm.c:707-721 | On the device RUN is never refused for an exceeded attempt limit |
| RamMap.WriteRegionMeaning | dsp/bootloader_user/src/boot_user_ram.c:20-102 | A range is writable exactly when it is non-empty and lies in one region, wrap-around included |
| RamMap.AdjacentRangesJoin | dsp/bootloader_user/src/boot_user_ram.c:20-102 | No two regions touch: two adjacent writable ranges are writable as one, and the other way round |
| BootAlgorithmModel.RamLoadState.ResetRamLoad | dsp/bootloader_core/src/boot_algorithm.c:48-63 | All load fields return to their reset values |
| BootAlgorithmModel.BootAlgorithm.WriteBlock | dsp/bootloader_user/src/boot_user_ram.c:137-162 | Writes exactly the block when the range is writable, nothing otherwise |
| BootAlgorithmModel.BootAlgorithm.InvalidateFlashService | dsp/bootloader_core/src/boot_algorithm.c:84-91 | Clears the publish words and detaches the service, nothing else |
| BootAlgorithmModel.BootAlgorithm.CheckFlashService | dsp/bootloader_core/src/boot_algorithm.c:127-206 | The checks on RAM give the specified status |
| BootAlgorithmModel.BootAlgorithm.ValidateFlashService | dsp/bootloader_core/src/boot_algorithm.c:93-229 | Memory and status equal the specification, and the single stores are made in the listed order |
| StoreOrder.ApplyValidation | dsp/bootloader_core/src/boot_algorithm.c:93-229 | The listed single stores of a validation add up to the RAM it leaves |
| StoreOrder.PublishesLast | dsp/bootloader_core/src/boot_algorithm.c:116-228 | Between the first and the last single store of a validation the publish words never read VALID |
| StoreOrder.EveryValidationStoreIsSafe | dsp/bootloader_core/src/boot_algorithm.c:93-229 | After every single store of a validation published still means valid |
| StoreOrder.ApplyData | dsp/bootloader_core/src/boot_algorithm.c:493-512 | The listed single stores of a data command add up to the RAM it leaves |
| StoreOrder.PublishedDuringData | dsp/bootloader_core/src/boot_algorithm.c:493-512 | Inside a data command that touches the window they read VALID exactly while a block that carries both of them is being stored |
| StoreOrder.PublishWordsCanReadValid | dsp/bootloader_core/src/boot_algorithm.c:493-512 | After the fourth store of a two-word block of VALID and its inverse they read VALID, in any RAM |
| StoreOrder.EveryStoreIsSafe | dsp/bootloader_core/src/boot_algorithm.c:493-512 | After every single store of a data command whose block does not carry both publish words, published still means valid |
| BootAlgorithmModel.BootAlgorithm.HandleRamLoadBegin | dsp/bootloader_core/src/boot_algorithm.c:364-425 | Core state, memory and status equal the specification, whose acceptance `CoreAnswers.BeginExactly` states |
| BootAlgorithmModel.BootAlgorithm.HandleRamLoadData | dsp/bootloader_core/src/boot_algorithm.c:427-532 | The same for DATA, with the publish words cleared before and after an overlapping write |
| BootAlgorithmModel.BootAlgorithm.HandleRamLoadEnd | dsp/bootloader_core/src/boot_algorithm.c:534-589 | The same for END |
| BootAlgorithmModel.BootAlgorithm.HandleRamCheckCrc | dsp/bootloader_core/src/boot_algorithm.c:591-629 | The same for CHECK_CRC |
| BootAlgorithmModel.BootAlgorithm.HandleRunRam | dsp/bootloader_core/src/boot_algorithm.c:632-673 | Status and entry point equal the specification, whose answers `RunRamRuns.RunRamExactly` gives |
| BootAlgorithmModel.BootAlgorithm.HandleRun | dsp/bootloader_core/src/boot_algorithm.c:676-726 | The answer equals the policy on a fresh scan of the journal, whose answers `Policy.RunExactly` gives |
| BootAlgorithmModel.BootAlgorithm.HandleServiceAttach | dsp/bootloader_core/src/boot_algorithm.c:772-845 | The same for SERVICE_ATTACH |
| BootAlgorithmModel.BootAlgorithm.RestoreFlashService | dsp/bootloader_core/src/boot_algorithm.c:950-974 | The same for restoring the service after a restart |
| RunRamRuns.RunRamExactly | dsp/bootloader_core/src/boot_algorithm.c:632-674 | After every run: RUN_RAM is OK exactly for three words, no flags, a completed load whose last CHECK_CRC since END was accepted, and a target between the least address and greatest end of the accepted blocks and in a write region; the entry is the stated one, or for zero the one BEGIN stated |
| Policy.RunExactly | dsp/bootloader_core/src/boot_algorithm.c:676-726 | For every payload and summary: when RUN is OK, and which refusal belongs to which case |
| Policy.AutoBootExactly | dsp/bootloader_user/src/boot_user_auto_boot.c:14-44 | The automatic decision in summary fields |
| CoreTable.RegionsInNumbers | dsp/bootloader_user/src/boot_user_ram.c:20-102 | The write regions in numbers |
| CoreTable.BeginAnswers | dsp/bootloader_core/src/boot_algorithm.c:364-425 | Which answer RAM_LOAD_BEGIN gives to which request, and every field of the load it opens |
| CoreTable.DataAnswers | dsp/bootloader_core/src/boot_algorithm.c:427-532 | After every run: which answer RAM_LOAD_DATA gives to which block; a refused block ends the load; a block that passes the checks and touches the window lets the service go, even when its range is then refused |
| CoreTable.EndAnswers | dsp/bootloader_core/src/boot_algorithm.c:534-589 | The answers of RAM_LOAD_END and what is left of the load |
| CoreTable.CheckAnswers | dsp/bootloader_core/src/boot_algorithm.c:591-629 | The answers of RAM_CHECK_CRC and whether the image then counts as checked |
| CoreTable.ValidationAnswers | dsp/bootloader_core/src/boot_algorithm.c:127-206 | Which status a validation gives for which group of checks, in numbers |
| CoreTable.ValidationWrites | dsp/bootloader_core/src/boot_algorithm.c:93-229 | Every word that a validation leaves in RAM |
| CoreTable.AttachAnswers | dsp/bootloader_core/src/boot_algorithm.c:758-845 | Which answer SERVICE_ATTACH gives, the handler, capabilities, CRC and size an accepted one installs, and what a refused one notes |
| CoreTable.RestoreAnswers | dsp/bootloader_core/src/boot_algorithm.c:950-974 | What restoring installs or lets go |
| CoreAnswers.DataExactly | dsp/bootloader_core/src/boot_algorithm.c:434-530 | After every run: accepted exactly in an open load, for the block that follows those accepted so far, within the declared counts, in one region; a refusal drops the load |
| CoreAnswers.DataWritesItsBlock | dsp/bootloader_core/src/boot_algorithm.c:493-512 | RAM changes at exactly the block's addresses and the publish words; an overlapping write leaves the service unpublished |
| CoreAnswers.AttachExactly | dsp/bootloader_core/src/boot_algorithm.c:781-845 | Accepted exactly for the loaded and checked image that covers the header, passes every check and initialises; then and only then it is published |
| CoreAnswers.RefusedAttachUnpublishes | dsp/bootloader_core/src/boot_algorithm.c:758-845 | A refused attach leaves an active, published service active, and published exactly when the request itself was refused |
| CoreAnswers.RestoreExactly | dsp/bootloader_core/src/boot_algorithm.c:950-974 | Attaches and publishes exactly a valid service |
| CoreAnswers.ValidServiceMeans | dsp/bootloader_core/src/boot_algorithm.c:127-206 | A service is valid exactly when every check holds, written out in numbers |
| CoreAnswers.ValidServiceDetectsOneWord | dsp/bootloader_core/src/boot_algorithm.c:131-206 | A service that validates never validates after one word of its header or immutable range changes |
| CoreRuns.RunsKeepLoad | dsp/bootloader_core/src/boot_algorithm.c:471-530 | In every run an open load has taken exactly the blocks in order within the declared counts, with their running CRC |
| CoreRuns.EndAcceptsExactly | dsp/bootloader_core/src/boot_algorithm.c:557-588 | END is accepted exactly when the declared packets and words all arrived in order and the entry point lies in the loaded span |
| CoreRuns.CheckAcceptsExactly | dsp/bootloader_core/src/boot_algorithm.c:609-628 | CHECK_CRC is accepted exactly for the CRC-32 and length of the concatenated payloads |
| CoreRuns.ValidatePublishes | dsp/bootloader_core/src/boot_algorithm.c:116-228 | Validation publishes exactly when every check and the initialisation succeed, and the published service is valid |
| CoreRuns.PublishedIsValid | dsp/app_flash_service/src/boot_flash_service_app.c:17-25 | In every run from the first validation on the publish words read VALID only while RAM passes every check, if each service that a validation meets ends in the window, and before the mutable data when the run calls the service |
| CoreRuns.WindowProtectsExactly | dsp/bootloader_core/src/boot_algorithm.c:231-241 | Exactly the images whose immutable range ends at or before 0x016000 are protected against every data command; one word at 0x016000 breaks any other |
| CoreRuns.CallsKeepServiceExactly | dsp/flash_service_contract/include/boot_flash_service_layout.h:22-23 | Exactly the images that end at or before 0x015B00 stay valid through every call, which writes the service's runtime state and mutable data |
| PastWindow.LongServiceGoesStale | dsp/bootloader_core/src/boot_algorithm.c:231-241 | A run with a service that ends past the window: published and valid, then published but invalid, then active but unpublished |
| Firmware.NeighbourCheckIsExact | pc/src/bootloader_upgrade_tool/firmware/models.py:67-70 | Checking sorted neighbours holds exactly when no two blocks overlap |
| Firmware.ConstructorsExactly | pc/src/bootloader_upgrade_tool/firmware/models.py:25-70 | When the constructors of a block and of an image raise: address or entry point beyond 32 bits, nothing in it, or an address in two blocks |
| Firmware.SortKeepsMemory | pc/src/bootloader_upgrade_tool/firmware/service_image.py:31-39 | Sorting blocks changes no word of the memory they describe |
| ServiceImage.ReplaceWords | pc/src/bootloader_upgrade_tool/firmware/service_image.py:42-57 | The loop returns the replaced image, or raises exactly when a block runs past the patch and past 2^32 |
| ServiceImage.ReplacingSucceedsExactly | pc/src/bootloader_upgrade_tool/firmware/service_image.py:42-57 | Replacing raises exactly for no words or when it leaves the rest of a block past the 32-bit addresses |
| ServiceImage.ReplacingCanRaise | pc/src/bootloader_upgrade_tool/firmware/service_image.py:53-54 | An image with a block past 2^32 for which replacing one word raises |
| ServiceImage.ReplacedIsDisjoint | pc/src/bootloader_upgrade_tool/firmware/service_image.py:42-57 | After a replacement the blocks are disjoint, so the image constructor cannot raise |
| ServiceImage.ReplaceOverridesMemory | pc/src/bootloader_upgrade_tool/firmware/service_image.py:42-57 | At every address the result holds the patch where it applies and the old word elsewhere |
| ServiceImage.PatchWords | pc/src/bootloader_upgrade_tool/firmware/service_image.py:60-67 | Succeeds exactly inside one block that can be replaced |
| ServiceImage.DenseImmutable | pc/src/bootloader_upgrade_tool/firmware/service_image.py:70-81 | The slice-assignment loop yields the image's words with 0xFFFF in the gaps |
| ServicePatch.CheckRanges | pc/src/bootloader_upgrade_tool/firmware/service_image.py:135-149 | Sorting the three mutable ranges and comparing neighbours decides pairwise disjointness, from the immutable range too |
| ServicePatch.PatchFlashServiceImage | pc/src/bootloader_upgrade_tool/firmware/service_image.py:114-178 | Succeeds exactly when the checks hold and no block runs past 2^32 at a patch, and returns the specified image |
| ServicePatch.CanPatchMeans | pc/src/bootloader_upgrade_tool/firmware/service_image.py:120-149 | The checks in numbers: header in one block, three entry points inside, no address in two of the areas |
| ServicePatch.HeaderStaysPatchable | pc/src/bootloader_upgrade_tool/firmware/service_image.py:154-178 | Once the checks pass the header lies in one block, and the final header patch raises exactly when a block of the original image runs past the header and past 2^32 |
| ServicePatch.HeaderPatchCanRaise | pc/src/bootloader_upgrade_tool/firmware/service_image.py:154-178 | An image past 2^32 that passes every check and whose header patch raises |
| ServicePatch.PatchedServiceMemory | pc/src/bootloader_upgrade_tool/firmware/service_image.py:151-178 | At every address the patched image holds header, two zero publish words, the immutable word or 0xFFFF in its gaps, or the original word |
| ServicePatch.StoredCrcMatchesFinalImage | pc/src/bootloader_upgrade_tool/firmware/service_image.py:176-178 | The CRC in the header is that of the final image's immutable range |
| ServicePatch.HeaderFields | pc/src/bootloader_upgrade_tool/firmware/service_image.py:160-177 | The header reads back its inputs and carries its own CRC |
| ServicePatch.HeaderInNumbers | pc/src/bootloader_upgrade_tool/firmware/service_image.py:159-177 | All 28 header words by position, the last two the CRC of the others |
| Packets.PrepareServiceRamPackets | pc/src/bootloader_upgrade_tool/firmware/service_image.py:84-101 | The loops yield the numbered packets of the sorted blocks, or raise exactly for a packet size of zero or above 65535 packets |
| Packets.MergeContiguous | pc/src/bootloader_upgrade_tool/core/workflow.py:70-84 | The loop merges exactly the touching neighbours of the sorted blocks |
| Packets.PrepareRamPackets | pc/src/bootloader_upgrade_tool/core/workflow.py:108-118 | The loops yield the numbered packets of the merged blocks |
| Packets.PreparePackets | pc/src/bootloader_upgrade_tool/core/workflow.py:87-98 | The loops yield the padded packets of the merged blocks, or raise for a packet size that is no positive multiple of eight |
| Packets.ChunkAt | pc/src/bootloader_upgrade_tool/core/workflow.py:108-118 | The pieces of a block one by one: as many as there are starts within it, each full but perhaps the last, numbered and placed in turn |
| Packets.PadMeans | pc/src/bootloader_upgrade_tool/core/workflow.py:87-98 | Padding adds fewer than eight words of 0xFFFF, up to the next multiple of eight |
| Packets.PacketsCarryWords | pc/src/bootloader_upgrade_tool/core/workflow.py:108-118 | For every packet size the packets carry the block words in order, none lost or repeated |
| Packets.RamCrcIsIndependent | pc/src/bootloader_upgrade_tool/core/workflow.py:121-125 | The RAM CRC depends neither on the packet size nor on merging |
| Packets.FlashImageIsIndependent | pc/src/bootloader_upgrade_tool/core/workflow.py:101-135 | CRC, size and end of the padded image are the same for every packet size that is a multiple of eight |
| RamLoading.SendsAll | pc/src/bootloader_upgrade_tool/core/workflow.py:342-349 | From an open load every packet in turn is accepted and the counters, CRC and span advance as specified |
| RamLoading.SentMemory | pc/src/bootloader_upgrade_tool/core/workflow.py:342-349 | Outside the publish words RAM holds exactly what the packets carried |
| ImageLoading.RangesAgree | pc/src/bootloader_upgrade_tool/firmware/ram_validation.py:8-19 | The PC's ranges and the core's write regions accept the same ranges |
| ImageLoading.MergeStaysWritable | pc/src/bootloader_upgrade_tool/core/workflow.py:70-84 | Merging writable blocks never crosses a region |
| ImageLoading.RamImageLoads | pc/src/bootloader_upgrade_tool/core/workflow.py:325-368 | A RAM image the PC accepts loads from idle with every answer OK, passes CHECK_CRC with the PC's word count, and RAM equals it everywhere but in the publish words |
| ImageLoading.RunRamFollowsLoad | pc/src/bootloader_upgrade_tool/core/workflow.py:377-381 | RUN_RAM then starts exactly the image's entry point |
| ServiceAttach.PatchedImageValidates | dsp/bootloader_core/src/boot_algorithm.c:127-206 | RAM that holds a patched image passes every check of the core |
| ServiceAttach.PatchingKeepsPremises | pc/src/bootloader_upgrade_tool/firmware/ram_validation.py:22-34 | The RAM check and the entry span of the patched image follow from those of the linker's image when the immutable range lies in RAM |
| ServiceAttach.SmallServiceIsServiceable | dsp/flash_service_contract/include/boot_flash_service_layout.h:4-23 | A small service at the layout addresses meets every premise of the attach theorem |
| ServiceAttach.PatchedServiceAttaches | pc/src/bootloader_upgrade_tool/core/workflow.py:383-436 | Builder and validator agree: load, check and attach of a patched image answer OK at every step, and it ends attached with the PC's CRC and word count, valid and published; the service initialises as `ServiceSpec.BootInit` does for this device |
| FlashTransfer.TransferAcceptsExactly | pc/src/bootloader_upgrade_tool/core/workflow.py:188-241 | A transfer from an idle service on a working port succeeds exactly when every packet fits in turn; then Flash and verify flag are as stated |
| FlashTransfer.VerifyTakes | dsp/flash_service_lib/port/f28377d_cpu1/src/boot_flash_port_f28377d_cpu1.c:407-448 | A VERIFY transfer succeeds exactly when every packet is placed and held by Flash, and changes nothing |
| PcPackets.MergedExactly | pc/src/bootloader_upgrade_tool/core/workflow.py:70-84 | Merging keeps the memory of every image and leaves ascending blocks with a gap between any two: each is a stretch as long as it can be |
| PcPackets.ImagePacketsApart | pc/src/bootloader_upgrade_tool/core/workflow.py:70-98 | Padded packets of any image that start aligned are in ascending order and share no address: padding never reaches another packet |
| Sectors.OneSectorExactly | dsp/flash_service_lib/port/f28377d_cpu1/src/boot_flash_port_f28377d_cpu1.c:203-229 | A range lies in one sector exactly when none of the 14 literal sector starts lies behind its first address |
| Sectors.PlacementExactly | pc/src/bootloader_upgrade_tool/core/workflow.py:87-98 | The target takes all packets of a block list exactly when every block is aligned, in the App area, and every sector in it starts a whole number of packets behind its start |
| Upgrade.PcImageIsTransferable | pc/src/bootloader_upgrade_tool/core/workflow.py:87-98 | What the PC makes of an image can be programmed and then verified exactly when every merged block fits the sectors |
| Upgrade.EraseClearsPackets | pc/src/bootloader_upgrade_tool/firmware/flash_layout.py:48-55 | A mask that covers the words of an image erases everything its packets are stored over, padding included |
| Upgrade.UpgradeSucceeds | pc/src/bootloader_upgrade_tool/core/workflow.py:270-290 | From any reachable state, erase, program, verify and publish all answer OK exactly when every merged block fits and the erase leaves a free slot; then Flash holds every word and the journal trusts exactly the PC's identity with no attempts yet |
| LifeCycle.UpgradedAppBoots | pc/src/bootloader_upgrade_tool/core/workflow.py:270-330 | From any reachable state, upgrade, BOOT_ATTEMPT, RUN and the App's confirmation all answer OK exactly when every merged block fits and the erase leaves three free slots; then Flash holds the image and the automatic decision is to run it |
| LifeCycle.FreshImageIsConfirmed | dsp/flash_service_lib/src/boot_flash_service_lib.c:469-646 | In a reachable journal with a fresh image, attempt, RUN and confirmation succeed exactly with two free slots, and make the image boot by itself |
| Upgrade.FirstUpgradeIsReady | dsp/flash_service_lib/src/boot_flash_service_lib.c:787-813 | Every device after its first boot meets the premises of the upgrade theorem for a small image |
| Sectors.FirstSectorLimitsOneBlock | dsp/bootloader_user/src/boot_user_device_info.c:34-35 | With the device's 248-word packets one block from the start of the App area can be transferred exactly when it ends within the first sector, at most 7168 words |
| Framing.FindMagicBytes | dsp/bootloader_core/src/boot_protocol_core.c:5-27 | Stops exactly behind the first occurrence of 5A A5 A5 5A |
| Framing.ReceiveFrame | dsp/bootloader_core/src/boot_protocol_core.c:36-78 | The loop gives the specified result on every byte stream |
| Framing.SendResponse | dsp/bootloader_core/src/boot_protocol_core.c:80-110 | Emits exactly the bytes of the response frame |
| Framing.ReceiveInvertsSend | dsp/bootloader_core/src/boot_protocol_core.c:36-110 | Behind noise in which no magic starts, whatever follows, Receive returns the frame that was sent exactly when the noise does not end in the first three magic bytes |
| Framing.ReceivedWasSent | dsp/bootloader_core/src/boot_protocol_core.c:36-78 | Soundness, on every stream: a frame that is returned has at most 256 payload words, and the bytes behind which receiving ends are exactly those a sender of it emits |
| Framing.PayloadIsChecked | dsp/bootloader_core/src/boot_protocol_core.c:59-78 | Behind an accepted header: which answer the payload gets; BAD_PAYLOAD_CRC exactly when its CRC is not the one that follows |
| Framing.DamagedPayloadIsFound | dsp/bootloader_core/src/boot_protocol_core.c:72-75 | Behind noise, a sent frame with exactly one payload word, or the payload CRC, changed gives BAD_PAYLOAD_CRC |
| Framing.RefusedHeaderIsSkipped | dsp/bootloader_core/src/boot_protocol_core.c:53-57 | A refused header consumes its own twenty bytes and nothing else: the frame behind them is returned |
| Framing.FrameLayout | dsp/bootloader_common/src/boot_protocol.c:23-33 | Every word of a frame on the wire, by position |
| Framing.ResponseLayout | dsp/bootloader_core/src/boot_protocol_core.c:80-110 | Every word of a response: version 1, command and sequence of the request, no flags |
| Framing.HeaderDetectsOneWord | dsp/bootloader_core/src/boot_protocol_core.c:53-57 | An accepted header is never accepted after a change of exactly one word |
| Decoder.ReadResponseFrame | pc/src/bootloader_upgrade_tool/core/client.py:159-208 | For every way of cutting the stream into chunks the reader answers as for the whole stream |
| Decoder.Round | pc/src/bootloader_upgrade_tool/core/client.py:180-208 | One round of the inner loop drops only positions where no frame can start, decides as the whole stream does, or shrinks the buffer |
| Decoder.DecisionIsStable | pc/src/bootloader_upgrade_tool/core/client.py:168-208 | A decision once reached does not depend on later bytes |
| Decoder.DecodeExactly | pc/src/bootloader_upgrade_tool/core/client.py:168-208 | The answer in bytes: decided by the first position with magic and nine words followed by their CRC; oversize exactly when the length word there exceeds the maximum |
| Decoder.SlicesDecode | pc/src/bootloader_upgrade_tool/protocol/frame.py:102-131 | Of a returned slice only the payload CRC and sequence 0 can still be refused |
| Decoder.DecodeFrameExactly | pc/src/bootloader_upgrade_tool/protocol/frame.py:102-131 | Decoding inverts encoding on both sides: exactly the words of a frame within the limit and with a sequence number decode to it; the payload CRC is blamed exactly behind an accepted header |
| Decoder.DecodeInvertsSend | pc/src/bootloader_upgrade_tool/core/client.py:159-208 | Behind noise in which no valid header starts, the PC reads back exactly the frame the core sent |
| CommandExecutor.ConnectionCommandExecutor.constructor | pc/src/bootloader_upgrade_tool/gui/connection_command_executor.py:28-36 | The initial state of the state machine |
| CommandExecutor.ConnectionCommandExecutor.EnterForeground | pc/src/bootloader_upgrade_tool/gui/connection_command_executor.py:53-63 | The stretch under the lock from entry to the first wait, exception or lease is the specified step |
| CommandExecutor.ConnectionCommandExecutor.Wake | pc/src/bootloader_upgrade_tool/gui/connection_command_executor.py:58-63 | The stretch from a wait that returned is the specified step |
| CommandExecutor.ConnectionCommandExecutor.TryMaintenance | pc/src/bootloader_upgrade_tool/gui/connection_command_executor.py:77-84 | The stretch under the lock is the specified step, with the stated status |
| CommandExecutor.ConnectionCommandExecutor.Release | pc/src/bootloader_upgrade_tool/gui/connection_command_executor.py:66-69 | The stretch behind an action is the specified step |
| CommandExecutor.ConnectionCommandExecutor.Invalidate | pc/src/bootloader_upgrade_tool/gui/connection_command_executor.py:95-98 | Closing is the specified step |
| Executor.RunsKeepInvariant | pc/src/bootloader_upgrade_tool/gui/connection_command_executor.py:47-98 | For any number of threads and any interleaving: one lease at most, the counter equals the sleeping foreground calls, and an un-notified sleeper implies active and valid |
| Executor.MaintenanceYieldsToForeground | pc/src/bootloader_upgrade_tool/gui/connection_command_executor.py:77-84 | Maintenance gets the lease exactly when the executor is open, of its generation and idle, with no foreground call asleep |
| Executor.ReleaseFreesExecutor | pc/src/bootloader_upgrade_tool/gui/connection_command_executor.py:66-69 | In every reachable state a release ends the holder's call, leaves the executor idle, wakes every sleeper, and neither loses nor invents a waiter |
| Executor.EnterExactly | pc/src/bootloader_upgrade_tool/gui/connection_command_executor.py:53-63 | A foreground call takes the lease at once exactly when the executor is open, of its generation and idle; sleeps exactly when it is open and busy; otherwise raises and changes nothing |
| Executor.WakeExactly | pc/src/bootloader_upgrade_tool/gui/connection_command_executor.py:58-63 | A woken sleeper takes the lease exactly when the executor is open and idle, sleeps on while it is busy, leaves when it was closed |
| Executor.InvalidateClosesExactly | pc/src/bootloader_upgrade_tool/gui/connection_command_executor.py:95-98 | Closing wakes every sleeper and touches neither lease nor counter |
| Executor.StartExactly | pc/src/bootloader_upgrade_tool/gui/connection_command_executor.py:64-65 | An action starts once, under a lease that it keeps |
| Executor.NoLeaseAfterInvalidate | pc/src/bootloader_upgrade_tool/gui/connection_command_executor.py:95-109 | No lease is given out once the executor is closed |
| Executor.ActionAfterInvalidate | pc/src/bootloader_upgrade_tool/gui/connection_command_executor.py:64-65 | An action can still start after closing exactly when its lease was already held at that moment |
| Executor.ActionCanStartAfterInvalidate | pc/src/bootloader_upgrade_tool/gui/connection_command_executor.py:84-88 | Such a run: maintenance takes the lease, the executor is closed, the action starts |
| Executor.SleepersAreServed | pc/src/bootloader_upgrade_tool/gui/connection_command_executor.py:58-69 | From every reachable state with a sleeper, at most a release and that sleeper's wake bring it to the lease or out of the call |

## Left out

- Device support: GPIO, PLL, watchdog, PIE, SCI driver, timer, jumps; hardware effects only.
- The Flash API behind the port, a sector erase interrupted half-way, and half-programmed single words: the code does not determine them.
- Error details (operation, stage, address, extra words): statuses are modelled, diagnostics are not.
- GET_SERVICE_STATUS, GET_METADATA_SUMMARY, MEMORY_READ, PING, RESET and the dispatch loop: they report or forward and would add only easy members.
- Null-pointer checks and the guard hooks around service calls.
- Timeouts, sleeps, tracing, retries and sequence allocation of the PC client: the reader is a function of the bytes.
- Python values outside uint16 or uint32, which raise: words, addresses and capabilities are typed ranges here; file names, checksums and format information of an image.
- Sector masks, App range and entry validation on the PC: premises at most.
- GUI, CLI, hex conversion, map parsing, workspaces: I/O around the modelled parts.
- ServiceRuns.RunsStayCoherent: requires that failing erase and program calls leave the App area alone, because the code keeps the flag otherwise; the two exact conditions are stated beside it.
- CoreRuns.PublishedIsValid: requires that every valid service that a validation meets ends by the limit; `CoreRuns.WindowProtectsExactly` and `CoreRuns.CallsKeepServiceExactly` show that this is needed. It speaks of the states between commands; `StoreOrder` covers the single stores of validations and data commands, not those of service calls.
- Packets.PrepareRamPackets: requires a positive packet size, because the loop of the source does not end for zero.
- Executor.RunsKeepInvariant: a step is a stretch under the lock or the start of an action; exceptions inside an action are part of its release.
- Decoder.ReadResponseFrame: an empty chunk is skipped; the deadline is not modelled, so a stream without a frame is reported as needing more bytes.
- Upgrade.UpgradeSucceeds: the modelled port stores over any words, so it also answers OK for an erase mask that does not cover the image; a real port may refuse there. With a mask that covers it (`Upgrade.MaskCovers`) only erased words are stored over. The same holds for LifeCycle.UpgradedAppBoots.
