# Recovery FOTA, UTF-8 fonts and multilingual strings

A Dafny model of three parts of an Android recovery image for MediaTek
phones:

- **Firmware-over-the-air installation** (`bootable/recovery/fota/fota.c`):
  the `gFota` session record, the steps that set it up (version check,
  partition mounting, discovery of delta or image payloads under a root
  folder), the delta install driver, and the porting callbacks the update
  engine calls back into (`RB_ReadImage`, `RB_WriteBlock`, `RB_GetDelta`,
  `RB_Progress`, the backup-block routines).
- **UTF-8 font rendering support** (`bootable/recovery/minui/utf8.c`):
  decoding of one UTF-8 character into the packed big-endian code the
  glyph archive is keyed by, the width-constrained byte count used to
  truncate labels, the lookup of a glyph record in a TAR archive of PGM
  images (with the three special characters that cannot appear in file
  names), the PGM header parser, and the 200-slot glyph cache.
- **Language selection and string lookup** (`bootable/recovery/multilingual.c`
  over the table in `bootable/recovery/ml_string.h`).

Files:

- `common.dfy` — `Option`, bytes, the ASCII encoding of literals.
- `fota_spec.dfy` — module `FotaSpec`: constants, the values the FOTA code
  exchanges (engine status codes, install results, partition geometry, a
  `Device` that stands for every driver and engine reply), and the
  specification functions and lemmas about them.
- `fota.dfy` — module `Fota`: the `gFota` record as the class
  `FotaGlobals`, whose methods update its fields as the C functions do,
  and the flash and file system as the classes `Medium` and `FileSystem`.
- `utf8_spec.dfy` — module `Utf8Spec`: bit tests, big-endian packing,
  the width scan, the TAR record predicate and the PGM header grammar.
- `utf8.dfy` — module `Utf8`: the decoding, truncation, archive lookup and
  parsing loops as methods proved against `Utf8Spec`, and the glyph cache
  as the class `FontCache` over an `array`.
- `multilingual.dfy` — module `Multilingual`: the string table, a
  `strncmp` model, and the static `language` as the class `LanguageState`.

Driver reads and writes that may fail are modelled by a `fault` flag per
transfer: a transfer succeeds exactly when it is not faulted and stays
inside the medium (`FotaSpec.TransferOk`). The update engine's own result
for each stage, the UPI version it reports and what the partition table
holds are fields of `FotaSpec.Device`.

## Model

| member | source | states |
|---|---|---|
| `Common.Ascii` | bootable/recovery/minui/utf8.c:76-81 | A literal's bytes are its characters' codes, one per character. |
| `FotaSpec.BlockAddr` | bootable/recovery/fota/fota.c:1075 | `dwStartAddress & ~0x1FFFF` is the 128 KiB boundary at or below the address. |
| `FotaSpec.PrevRead` | bootable/recovery/fota/fota.c:1097-1098 | `prev_read` is between 1 and 0x20000, reaches the next boundary, and is a whole block exactly when the address is aligned. |
| `FotaSpec.CopyExtent` | bootable/recovery/fota/fota.c:1088-1121 | RB_ReadImage writes at least `dwSize` bytes, exactly `dwSize` when aligned or when the request reaches the boundary, and `prev_read > dwSize` bytes otherwise. |
| `FotaSpec.UnalignedReadOverrun` | bootable/recovery/fota/fota.c:1112 | A 1-byte read at 0x20001 makes the memcpy write 0x1FFFF bytes. |
| `FotaSpec.ReadSuccessCoversRange` | bootable/recovery/fota/fota.c:1088-1121 | A successful read means both the requested range and the bytes actually copied lie inside the partition. |
| `FotaSpec.UnalignedComposition` | bootable/recovery/fota/fota.c:1106-1120 | The tail of the containing block followed by the second read from the boundary is exactly the requested range. |
| `FotaSpec.Overwrite` | bootable/recovery/fota/fota.c:1219-1235 | Programming bytes at an offset keeps the length, puts the bytes there and leaves every other byte alone. |
| `FotaSpec.OverwriteIdempotent` | bootable/recovery/fota/fota.c:1359-1366 | Programming the same bytes twice, as the two-attempt backup loop does, equals programming them once. |
| `FotaSpec.CounterAfterLoop` | bootable/recovery/fota/fota.c:1320-1321 | The value `retry` holds when `while (retry--)` stops, one below zero because the failing test still decrements. |
| `FotaSpec.BackupOutcome` | bootable/recovery/fota/fota.c:1310-1333 | The as-written status of the backup routines: failure without a backup partition or with `retry` zero after the loop, else success; the transfers do not enter it. |
| `FotaSpec.RetryCheckUnreachable` | bootable/recovery/fota/fota.c:1320-1333 | For any retry count the counter ends at -1, so `if (!retry)` is never taken and the outcome is success exactly when a backup partition exists. |
| `FotaSpec.StageRounds` | bootable/recovery/fota/fota.c:860-879 | A present payload adds one round plus one per enabled verification; an absent one adds none. |
| `FotaSpec.RoundsCountPayloads` | bootable/recovery/fota/fota.c:860-879 | With the verification stages compiled out, `uRound` is the number of delta payloads present. |
| `FotaSpec.ProgressStep` | bootable/recovery/fota/fota.c:1479-1481 | `uProgress` grows by 100 exactly on a 100 % report. |
| `FotaSpec.CountComplete` | bootable/recovery/fota/fota.c:1479-1481 | At most one stage finishes per report. |
| `FotaSpec.ProgressCountsFinishedSteps` | bootable/recovery/fota/fota.c:1466-1483 | After a run of reports `uProgress` is its start plus 100 per finished stage. |
| `FotaSpec.FractionAtMostOne` | bootable/recovery/fota/fota.c:1472 | While a stage is unfinished, the progress numerator never exceeds `uRound * 100`, so the fraction stays at most one. |
| `FotaSpec.TwoRoundExample` | bootable/recovery/fota/fota.c:1466-1483 | With both payloads, half of the second stage reports 150 out of 200. |
| `FotaSpec.CheckUpiVersion` | bootable/recovery/fota/fota.c:201-218 | Accepts only a reply equal to `RB_UPI_VERSION`; no reply is a refusal. |
| `FotaSpec.OlderEngineRefused` | bootable/recovery/fota/fota.c:201-218 | A different engine version string is refused and the expected one accepted. |
| `FotaSpec.Folder` | bootable/recovery/fota/fota.c:442-446 | The folder is the root path with a trailing `/` added only when missing. |
| `FotaSpec.FolderIdempotent` | bootable/recovery/fota/fota.c:442-446 | Normalising an already normalised folder changes nothing. |
| `FotaSpec.Probe` | bootable/recovery/fota/fota.c:351-395 | Each payload path is recorded exactly when `folder + name` exists, and is that path. |
| `FotaSpec.DiscoveryPolicy` | bootable/recovery/fota/fota.c:448-456 | Delta files win over image files; image mode only when no delta exists; discovery fails exactly when neither kind exists. |
| `FotaSpec.SystemDeltaOnly` | bootable/recovery/fota/fota.c:427-463 | A root holding only `system.delta` yields delta mode with only the system payload. |
| `FotaSpec.InstallSuccessIff` | bootable/recovery/fota/fota.c:826-1032 | The install succeeds exactly when the version matches, partitions mount, the root mounts, the buffer is allocated, a delta exists and each present stage's engine call succeeds. |
| `FotaSpec.ImageModeNeverSucceeds` | bootable/recovery/fota/fota.c:969-996 | Without a delta file the install never reports success. |
| `FotaSpec.EngineFailureCarriesStatus` | bootable/recovery/fota/fota.c:942-965 | An engine failure reports a non-success status that one of the stages returned. |
| `FotaSpec.EndToEndScenario` | bootable/recovery/fota/fota.c:826-1032 | A healthy device with both deltas installs successfully, and `uRound` is 2. |
| `Fota.CopyBytes` | bootable/recovery/fota/fota.c:1112 | `memcpy`: the destination range holds the source, the rest of the array is unchanged. |
| `Fota.RemoveFile` | bootable/recovery/fota/fota.c:748-767 | Succeeds when the file is absent or unlinking is allowed; a success leaves the file gone and the rest of the folder intact. |
| `Fota.FotaGlobals.constructor` | bootable/recovery/fota/fota.c:144-169 | The static `gFota` starts zeroed with no working buffer. |
| `Fota.FotaGlobals.Init` | bootable/recovery/fota/fota.c:191-199 | `fota_init` zeroes the session record and returns true. |
| `Fota.FotaGlobals.MountPartitions` | bootable/recovery/fota/fota.c:220-349 | Succeeds exactly when the MTD scan finds partitions, the data partition is present, boot, system and recovery report their geometry, and boot and system share an erase size; then all handles are set and the geometries recorded. |
| `Fota.FotaGlobals.FindDeltaUpdateFile` | bootable/recovery/fota/fota.c:367-395 | From a clean record, records each `.delta` file present and succeeds exactly when one exists. |
| `Fota.FotaGlobals.FindImageUpdateFile` | bootable/recovery/fota/fota.c:397-425 | From a clean record, records each `.img` file present and succeeds exactly when one exists. |
| `Fota.FotaGlobals.FindAllUpdateFile` | bootable/recovery/fota/fota.c:427-463 | Succeeds exactly when the root mounts and discovery finds a payload, and then records the discovered mode and paths. |
| `Fota.FotaGlobals.UpdateBoot` | bootable/recovery/fota/fota.c:465-546 | Called with boot as the active target (partition, geometry and payload); no boot delta is a failure, otherwise the engine's status is returned. |
| `Fota.FotaGlobals.UpdateSystem` | bootable/recovery/fota/fota.c:548-621 | Called with system as the active target (partition, geometry and payload); returns the engine's status for the system stage. |
| `Fota.FotaGlobals.Cleanup` | bootable/recovery/fota/fota.c:998-1019 | The `FAIL:` path frees every payload path, the delta handle and the working buffer. |
| `Fota.FotaGlobals.PrepareSession` | bootable/recovery/fota/fota.c:826-858 | Setup succeeds exactly when version, mount and discovery all succeed, and then the record holds the discovered payloads. |
| `Fota.FotaGlobals.RunDeltaStages` | bootable/recovery/fota/fota.c:860-967 | Sets `uRound` to the stage count, makes each present payload's partition the active target before its engine call, and returns the first failing stage's status, else success; the last target set is stated, and nothing is touched without payloads. |
| `Fota.FotaGlobals.InstallFotaDeltaPackage` | bootable/recovery/fota/fota.c:826-1032 | The result equals `ExpectedInstall`; afterwards everything is released, and a non-error result implies delta mode with the expected round count. |
| `Fota.FotaGlobals.GetBlockSize` | bootable/recovery/fota/fota.c:1045-1050 | The block size is the active partition's erase size. |
| `Fota.FotaGlobals.ReadUnaligned` | bootable/recovery/fota/fota.c:1095-1121 | Succeeds exactly when both driver reads do; then the buffer holds the block tail and the requested range; bytes past both are untouched. |
| `Fota.FotaGlobals.ReadImage` | bootable/recovery/fota/fota.c:1058-1164 | Bad params exactly when the start is past the partition (buffer untouched); otherwise success exactly when the reads succeed, with the requested range copied and `CopyExtent` bytes written. |
| `Fota.FotaGlobals.ReadImageBounded` | bootable/recovery/fota/fota.c:1058-1164 | As `ReadImage`, but only `dwSize` bytes are ever written. |
| `Fota.FotaGlobals.WriteBlock` | bootable/recovery/fota/fota.c:1170-1236 | Null buffer, misaligned or out-of-range address are bad params; otherwise success exactly when the driver write succeeds, which programs one erase block; any failure leaves the flash unchanged. |
| `Fota.FotaGlobals.GetDelta` | bootable/recovery/fota/fota.c:1257-1280 | Succeeds exactly when the requested bytes lie inside the delta file, and then copies them; bytes past `dwSize` are untouched. |
| `Fota.FotaGlobals.Progress` | bootable/recovery/fota/fota.c:1466-1483 | Reports `(uProgress + uPercent) / (uRound * 100)` and adds 100 to `uProgress` on a finished stage. |
| `Fota.FotaGlobals.ReadBackupBlock` | bootable/recovery/fota/fota.c:1302-1334 | Fails exactly without a backup partition; otherwise succeeds whatever the reads did, with the data copied when either read succeeded. |
| `Fota.FotaGlobals.ReadBackupBlockChecked` | bootable/recovery/fota/fota.c:1302-1334 | Succeeds exactly when a backup partition exists and one of the two reads succeeds, and then holds the block's data. |
| `Fota.FotaGlobals.WriteBackupBlock` | bootable/recovery/fota/fota.c:1342-1373 | Fails exactly without a backup partition; the block is programmed when either attempt succeeds and nothing else changes. |
| `Fota.FotaGlobals.EraseBackupBlock` | bootable/recovery/fota/fota.c:1380-1389 | Always reports success. |
| `Fota.FotaGlobals.WriteBackupPartOfBlock` | bootable/recovery/fota/fota.c:1396-1428 | Fails exactly without a backup partition; `dwSize` bytes are programmed when either attempt succeeds and nothing else changes. |
| `Utf8Spec.LeadingOnes` | bootable/recovery/minui/utf8.c:107-112 | The count of leading one bits, characterised by the byte's position between the masks `Ones(n)` and `Ones(n+1)`. |
| `Utf8Spec.BitTest` | bootable/recovery/minui/utf8.c:108-111 | Testing bit `7 - i` of a byte whose top `i` bits are set tells whether it has `i + 1` leading ones. |
| `Utf8Spec.LeadLength` | bootable/recovery/minui/utf8.c:114-125 | The sequence length is 1 for zero, one or more than six leading ones, and the count of leading ones otherwise. |
| `Utf8Spec.BigEndianRoundTrip` | bootable/recovery/minui/utf8.c:122-124 | Packing bytes big-endian and unpacking to the same length gives the bytes back. |
| `Utf8Spec.PackingInjective` | bootable/recovery/minui/utf8.c:122-124 | Two byte strings of equal length with the same packed code are equal. |
| `Utf8Spec.BigEndianZero` | bootable/recovery/minui/utf8.c:122-124 | A packed code of zero means every byte was zero. |
| `Utf8Spec.SingleBytePacking` | bootable/recovery/minui/utf8.c:101-128 | A byte below 0xC0 is a one-byte character whose code is the byte itself. |
| `Utf8Spec.Strlen` | bootable/recovery/minui/utf8.c:138 | The length up to the first NUL: no NUL before it, a NUL at it. |
| `Utf8Spec.CharWidth` | bootable/recovery/minui/utf8.c:146 | A character is 1.0 or 1.7 units wide, in tenths. |
| `Utf8Spec.Fit` | bootable/recovery/minui/utf8.c:146-149 | The number of further 1.0-wide characters that fit under the limit. |
| `Utf8Spec.ScanAscii` | bootable/recovery/minui/utf8.c:133-159 | On ASCII text the byte count is the shorter of the string and what fits. |
| `Utf8Spec.ScanMonotone` | bootable/recovery/minui/utf8.c:133-159 | A wider limit never yields fewer bytes. |
| `Utf8Spec.ScanBound` | bootable/recovery/minui/utf8.c:133-159 | The count never passes the string's end by more than one unfinished character. |
| `Utf8Spec.AsciiTruncation` | bootable/recovery/minui/utf8.c:133-159 | For ASCII text and `char_num` characters the result is one more than the bytes of the first `char_num - 1` characters, capped by the string. |
| `Utf8Spec.FirstSpecial` | bootable/recovery/minui/utf8.c:165-177 | The first table entry for the character, present exactly when one exists. |
| `Utf8Spec.SpecialCharacters` | bootable/recovery/minui/utf8.c:76-81 | Exactly `/`, `*` and `?` are special, mapped to "slash", "asterisk" and "question" with their lengths. |
| `Utf8Spec.NoRecordForZero` | bootable/recovery/minui/utf8.c:180-215 | No archive record matches code 0, so an empty cache slot is never a lookup result. |
| `Utf8Spec.P5Magic` | bootable/recovery/minui/utf8.c:238-240 | The decimal value of "P5" as parsed is 325. |
| `Utf8Spec.Split` | bootable/recovery/minui/utf8.c:225-236 | The header splits into fields that contain no separator. |
| `Utf8Spec.SplitLength` | bootable/recovery/minui/utf8.c:225-236 | The fields and separators together account for every byte. |
| `Utf8Spec.PgmParse` | bootable/recovery/minui/utf8.c:219-255 | The status is 0, -1 or -2, and on success the data offset lies within the 32-byte window. |
| `Utf8Spec.FourthSeparator` | bootable/recovery/minui/utf8.c:245-251 | The data starts right after the fourth separator. |
| `Utf8.Utf8GetCh` | bootable/recovery/minui/utf8.c:101-128 | Returns the sequence length of the lead byte and the big-endian packing of that many bytes (`?` for an invalid lead). |
| `Utf8.BytesConstraint` | bootable/recovery/minui/utf8.c:133-159 | Returns one more than the bytes of the characters that fit in `char_num - 1` units. |
| `Utf8.GetSpecialCharMap` | bootable/recovery/minui/utf8.c:165-177 | Reports a special character exactly when the table has it, and then hands out its entry. |
| `Utf8.PgmGetData` | bootable/recovery/minui/utf8.c:219-255 | The status and header equal the grammar's `PgmParse`. |
| `Utf8.MatchRecord` | bootable/recovery/minui/utf8.c:186-211 | A record is taken exactly when it is a font record whose name encodes the code. |
| `Utf8.LookupTar` | bootable/recovery/minui/utf8.c:180-215 | Returns the data offset of the first matching record, or none when no record matches. |
| `Utf8.FilledCount` | bootable/recovery/minui/utf8.c:290-298 | The filled prefix of the cache: every slot before it used, the slot at it empty. |
| `Utf8.FindSlot` | bootable/recovery/minui/utf8.c:290-298 | The first filled slot holding the code, or none among the filled slots. |
| `Utf8.OnlyFirstRecord` | bootable/recovery/minui/utf8.c:180-215 | Only the first matching record can be the lookup's result, and its code is non-zero. |
| `Utf8.NoRecordNoSpec` | bootable/recovery/minui/utf8.c:180-215 | Without a matching record there is no glyph. |
| `Utf8.FetchGlyph` | bootable/recovery/minui/utf8.c:305-327 | A glyph exists exactly when a first record parses, and is the one built from it. |
| `Utf8.FontCache.constructor` | bootable/recovery/minui/utf8.c:83-98 | The cache starts empty over the archive. |
| `Utf8.FontCache.ScanSlots` | bootable/recovery/minui/utf8.c:290-298 | A hit is the first slot holding the code; a miss stops at the first empty slot. |
| `Utf8.FontCache.LookupChar` | bootable/recovery/minui/utf8.c:281-328 | A hit returns its slot unchanged; a miss with room and a glyph fills the first empty slot and returns it; otherwise nothing changes and 0 is returned; the cache stays valid. |
| `Utf8.FilledCountIs` | bootable/recovery/minui/utf8.c:290-298 | The filled count is the first empty index. |
| `Utf8.FindSlotIs` | bootable/recovery/minui/utf8.c:290-298 | The first slot holding the code is what the search finds. |
| `Utf8.FilledAfterInsert` | bootable/recovery/minui/utf8.c:305-327 | After a miss fills the first empty slot, the code is found there. |
| `Multilingual.StrnEqualPrefix` | bootable/recovery/multilingual.c:39 | For NUL-free names `strncmp(a, b, n) == 0` exactly when the first `n` characters agree. |
| `Multilingual.FirstMatch` | bootable/recovery/multilingual.c:35-45 | The first of the `supported_lang_cnt * PAGE_COUNT` entries for the language whose name agrees, or none. |
| `Multilingual.TableLayout` | bootable/recovery/ml_string.h:368-508 | Entry `i` of the table is page `i % 3` of the `i / 3`-th supported language. |
| `Multilingual.PageNamesDistinct` | bootable/recovery/multilingual.c:39 | "main", "wipe_data" and "updater" are told apart by a 4-byte comparison. |
| `Multilingual.EntryMatchesAt` | bootable/recovery/ml_string.h:368-492 | An entry matches a supported language's page exactly at index `3 * language + page`. |
| `Multilingual.ShippedTableLookup` | bootable/recovery/multilingual.c:31-48 | Every supported language finds each of its three pages, and only that entry matches. |
| `Multilingual.FirstMatchAt` | bootable/recovery/multilingual.c:37-45 | The search returns the first matching entry. |
| `Multilingual.NoMatchFrom` | bootable/recovery/multilingual.c:37-45 | With no matching entry the search finds nothing. |
| `Multilingual.LanguageSevenMatchesNothing` | bootable/recovery/multilingual.c:15 | Code `supported_lang_cnt` passes the range test yet names no table entry. |
| `Multilingual.LanguageState.constructor` | bootable/recovery/multilingual.c:11 | The language starts as `DEFAULT_LANG`. |
| `Multilingual.LanguageState.SetLanguage` | bootable/recovery/multilingual.c:13-22 | Codes above `supported_lang_cnt` fall back to English; every other code, including 7 and negatives, is taken; returns 0. |
| `Multilingual.LanguageState.SetLanguageBounded` | bootable/recovery/multilingual.c:13-22 | Only codes 0 to 6 are taken, any other falls back to English, so the language is always supported. |
| `Multilingual.LanguageState.SelectLanguage` | bootable/recovery/multilingual.c:24-28 | Selects the `i`-th supported language and returns 0. |
| `Multilingual.LanguageState.StringFetch` | bootable/recovery/multilingual.c:31-48 | Points header and menu at the first matching entry, or leaves them as they were; returns 0. |

## Left out

- File, flash and engine I/O: `fopen`/`fread`/`fseek`, the MTD driver calls and the update engine's `RB_vRMUpdate` become fields of `FotaSpec.Device`, `fault` flags, `Medium` and `FileSystem`.
- Logging, UI calls (`ui_print`, `ui_set_progress`), `write_result_file`, `fota_main.c`, and the stubbed porting callbacks (timers, semaphores, `RB_Malloc`, locks, free space) do nothing the model can state.
- `fota_write_boot`, `fota_write_system` and the image branch's writing are not modelled: image mode always ends in failure, which `FotaSpec.ImageModeNeverSucceeds` states.
- `remove_fota_delta_files` and `find_fota_delta_package` are not modelled; `Fota.RemoveFile` covers the removal of one file.
- The eMMC (`MTK_EMMC_SUPPORT`) branches and `#if 0` code are not modelled; the NAND paths are.
- The verification stages (`VERIFY_*`) are compiled out; `FotaSpec.StageRounds` keeps them as parameters.
- Fota.FotaGlobals.UpdateBoot: the contents of the `RB_` update structures passed to the engine are not modelled, only the status it returns.
- Fota.FotaGlobals.UpdateSystem: as for the boot stage, only the engine's status is modelled.
- Fota.FotaGlobals.WriteBlock: a failed write is modelled as leaving the flash unchanged; a torn partial write is not modelled.
- Fota.FotaGlobals.WriteBackupBlock: modelled as written, with the same dead `if (!retry)` as the read (see Findings); no corrected variant.
- Fota.FotaGlobals.WriteBackupPartOfBlock: modelled as written, with the same dead `if (!retry)`; no corrected variant.
- Fota.FotaGlobals.Progress: the ratio is returned as numerator and denominator; the float division and `ui_set_progress` are left out.
- Fota.FotaGlobals.MountPartitions: the lookup of a backup partition is left out because the source never sets one; the record keeps it absent.
- FotaSpec.ExpectedInstall: install_fota_delta_package returns an engine `long` status through the same `int` it uses for `INSTALL_SUCCESS` and `INSTALL_ERROR`; the model keeps engine codes (`RbStatus`) and install results (`InstallStatus`, with `EngineFailed`) apart, so a numeric clash between the two code sets is not modelled.
- Utf8.FetchGlyph: requires the archive length to be a multiple of 512; on any other length `lookup_tar` can take a record whose data block runs past the archive and `pgm_get_data` reads up to 32 bytes beyond its end, which the model does not capture.
- Utf8.FontCache.constructor: requires the archive length to be a multiple of 512, for the same reason; the out-of-bounds header read on other lengths is not modelled.
- Utf8.FontCache.Valid: includes the 512-multiple archive length, so the out-of-bounds header read is excluded for every cache operation.
- Multilingual.LanguageState.SelectLanguage: requires `0 <= i < 7`; `ml_select_language` indexes `supported_lang[i]` unchecked, and the out-of-bounds read for other `i` is not modelled.
- Fota.FotaGlobals.WriteBlock: requires a non-zero erase size of the active partition; with zero, the alignment test `dwBlockAddress % erase_size` is a division by zero in C, which the model does not capture.
- FotaSpec.Folder: requires a non-empty root path; `root_path[strlen(root_path) - 1]` on an empty path reads before the string in C, which the model does not capture. The same requirement carries to Fota.FotaGlobals.FindAllUpdateFile, Fota.FotaGlobals.PrepareSession and Fota.FotaGlobals.InstallFotaDeltaPackage.
- Integer widths: the 32-bit wrap-around of `v * 10` in `pgm_get_data`, of `uProgress`, and of addresses is not modelled; integers are unbounded.
- Utf8.BytesConstraint: the 1.7 width is scaled to 17 tenths and floating-point rounding is not modelled; the length comes from the lead byte alone (`LeadLength`), so `utf8_get_ch` reading the bytes of a multi-byte lead that lie past the NUL is not modelled.
- Utf8.FontCache.LookupChar: a glyph's pixel data (`utf8_make_gr_font`, the surface it builds) is reduced to its header; rendering (`utf8_text`) and loading the archive file in `utf8_init_font` are not modelled.
- Multilingual: the header file with the language enumeration is not part of this model; EN to RU are taken as 0 to 6 in `supported_lang` order, and the translated texts are not modelled.
- Memory leaks (the unfreed `pgm_font`, the delta file handle on some paths) and the unchecked `fopen` result are not modelled.

## Findings

| source | as written | input that shows it | evidently intended | confidence | as-written member | corrected member |
|---|---|---|---|---|---|---|
| bootable/recovery/fota/fota.c:1320-1333 | `while (retry--)` always makes two reads and leaves `retry` at -1, so `if (!retry) return E_RB_FAILURE` never fires and a failed read is reported as success (`FotaSpec.BackupOutcome`, `FotaSpec.RetryCheckUnreachable`) | backup partition present, both reads fault | fail when neither of the two reads returns `dwSize` bytes, stopping after the first that does | high; not executed | `Fota.FotaGlobals.ReadBackupBlock` | `Fota.FotaGlobals.ReadBackupBlockChecked` |
| bootable/recovery/fota/fota.c:1095-1121 | an unaligned read copies all `prev_read` bytes of the block tail even when `dwSize` is smaller, writing past the caller's buffer | `dwStartAddress = 0x20001`, `dwSize = 1`: 0x1FFFF bytes are written (`FotaSpec.UnalignedReadOverrun`) | copy `min(dwSize, prev_read)` bytes | medium; not executed | `Fota.FotaGlobals.ReadImage` | `Fota.FotaGlobals.ReadImageBounded` |
| bootable/recovery/multilingual.c:15 | `l > supported_lang_cnt` takes code 7, which names no table entry, so later fetches leave header and menu unset (`Multilingual.LanguageSevenMatchesNothing`) | `l = 7` | `l >= supported_lang_cnt`, and negatives refused | low (the only caller passes codes 0 to 6); not executed | `Multilingual.LanguageState.SetLanguage` | `Multilingual.LanguageState.SetLanguageBounded` |
