# Siege, modelled and proved in Dafny

Siege opens the archives, configurations and images of old games and looks for those games on disk. This project
models its self-contained algorithms in Dafny, in the form the C++ code has (streams with a cursor, classes whose
methods change their fields, loops over arrays), and proves what they are for.

| files | what they are about |
|---|---|
| `Bytes.dfy`, `Streams.dfy`, `Selections.dfy`, `Wrappers.dfy` | little-endian integers of any width, alignment padding, byte streams with a cursor, selections from a list |
| `VolFormat.dfy`, `VolWriter.dfy`, `VolReader.dfy`, `VolRoundTrip.dfy`, `VolBytes.dfy`, `VolArchive.dfy` | the Darkstar VOL archive: writer, reader, and what the one gets back from the other |
| `DetectionModel.dfy`, `DetectionSafety.dfy`, `DetectionProgress.dfy`, `DetectionView.dfy` | the game-detection flush protocol: state machine, invariant over all interleavings, progress, and the view's methods under interference |
| `ConfigStore.dfy`, `ConfigText.dfy`, `ConfigTokens.dfy`, `ConfigForms.dfy`, `ConfigRoundTrip.dfy`, `ConfigSaveLoad.dfy` | the id Tech configuration: last-match-wins store, line splitter, tokenizer, printer, and saving followed by loading |
| `PakDecoder.dfy`, `PakFolders.dfy` | the Daikatana decompressor, and the folder index of PAK archives |
| `Listing.dfy`, `ListingCount.dfy`, `ListingFolders.dfy`, `ListingCache.dfy` | archive listings: filtering, the recursive walk, folder synthesis, the listing cache |
| `BwdLinker.dfy`, `BwdReferences.dfy` | the chunk linker of MechWarrior 2 projects |
| `BitmapFlip.dfy`, `BmpFile.dfy`, `BmpLayout.dfy`, `Palette.dfy`, `PaletteRemap.dfy` | in-place flips, 8-bit bitmaps, remapping between palettes |

A method is specified by a function of its inputs or of the old state; the lemmas then say what that function means,
down to the bytes and characters that go in and come out.
Where a promise of the code turned out to hold on fewer inputs than one would think, the lemma states exactly on which:
the names ending in "ExactlyWhen..." are if-and-only-if statements.

Modelling conventions. A write goes through `Append`, whose ghost arguments say what the stream held before and where
the write began. In `DetectionView` every method is cut into its atomic operations and critical sections; between any
two of them `YieldWorker` or `YieldUi` lets the other threads take any legal run of steps. `Valid()` there says that the fields are what some legal run of the protocol leads to, so each method's
steps are steps of the protocol, and everything proved about reachable states holds of the object.

Where the code does not do what one would expect, the model follows the code:

- `is_ascii_text_config` (shared.cpp:276) compares its counter with 8192 before the letter test only, so a letter at that
  index refuses the text, and other characters do not.
- `split_into_lines` never sees a separator at the very beginning, and a line that is one lone bare word loses its last
  character. Text directly in front of a quote is lost, and so is the rest of a line behind a quote that is not closed; a
  tab behind a closing quote and a blank at the beginning of a line become part of the next token.
- The header field of a VOL archive is counted from where the write began, and the reader takes it as counted from the
  origin of the stream. An archive written elsewhere than at position 0 is listed as whatever stands there: behind zero
  bytes as nothing, behind another archive of the same size as that other archive.
- The PAK listing remembers a folder and its parent, not its other ancestors.
- The linker's patched root size still counts the chunks it dropped and stray bytes behind the last chunk.
- With uniqueness asked for, the palette mapping takes an exact match without looking whether it is taken.

## Model

| member | source | states |
|---|---|---|
| `VolRoundTrip.ArchiveRoundTrip` | siege-modules/content/siege-content-3space/src/darkstar_resource.cpp:149-476 | for every list of files with distinct NUL-free names of at most 100 bytes and contents below 2^24 bytes, reading what the writer put at position 0 lists every name, size and type in order, and behind the 8-byte header of each listed place lie exactly that file's bytes |
| `VolArchive.PackAndUnpack` | siege-modules/content/siege-content-3space/src/darkstar_resource.cpp:149-476 | the writer and the reader run one after the other: the listing has every name, size and type in order, and extracting every listed file in turn, wherever the stream stands, yields its contents |
| `VolRoundTrip.ListingRoundTrip` | siege-modules/content/siege-content-3space/src/darkstar_resource.cpp:325-403 | the listing of a written archive has every name, size field, type and place in order even when names repeat, the place being that of the first block under the name |
| `VolRoundTrip.ListingNamesExactlyWhenPlain` | siege-modules/content/siege-content-3space/src/darkstar_resource.cpp:282-323 | whatever the names, the listing names every file in order if and only if every name is NUL-free and at most 100 bytes long |
| `VolRoundTrip.NamesSurviveExactlyWhenPlain` | siege-modules/content/siege-content-3space/src/darkstar_resource.cpp:190-211 | the string table alone gives back the names in order if and only if all of them are NUL-free and at most 100 bytes long |
| `VolRoundTrip.OwnBlocksExactlyWhenDistinct` | siege-modules/content/siege-content-3space/src/darkstar_resource.cpp:158-162 | every listed place is the file's own block if and only if no name repeats (`emplace` keeps the first) |
| `VolRoundTrip.ExtractionReadsFirstBlock` | siege-modules/content/siege-content-3space/src/darkstar_resource.cpp:456-476 | whatever the names, behind the header of the place listed for a file lies the payload of the first file with that name |
| `VolRoundTrip.WholeContentExactlyWhenSizeFits` | siege-modules/content/siege-content-3space/src/darkstar_resource.cpp:163-171 | a block holds the whole of an uncompressed file if and only if its size is below 2^24 |
| `VolRoundTrip.BlockAtLocation` | siege-modules/content/siege-content-3space/src/darkstar_resource.cpp:160-180 | each block is at its recorded location, header then payload, followed by the least padding to a multiple of four |
| `VolRoundTrip.BlocksAreAlignedAndOrdered` | siege-modules/content/siege-content-3space/src/darkstar_resource.cpp:160-180 | blocks are disjoint and in order, start on multiples of four, and neighbours are fewer than four padding bytes apart |
| `VolRoundTrip.ImagePieces` | siege-modules/content/siege-content-3space/src/darkstar_resource.cpp:182-227 | the patched header field is the place of the string table; the index starts at an even distance behind it and closes the file |
| `VolBytes.ImageInBytes` | siege-modules/content/siege-content-3space/src/darkstar_resource.cpp:38-46 | the tags and sizes between the parts, byte by byte |
| `VolBytes.BlockHeaderInBytes` | siege-modules/content/siege-content-3space/src/darkstar_resource.cpp:163-167 | at every block's place stand `VBLK`, the declared size (the compressed one if there is one) modulo 2^24, and 0x80 |
| `VolBytes.BlockPayloadInBytes` | siege-modules/content/siege-content-3space/src/darkstar_resource.cpp:169-171 | behind it stand the first bytes of the file's stream, as many as that size says |
| `VolBytes.EntryInBytes` | siege-modules/content/siege-content-3space/src/darkstar_resource.cpp:217-227 | each 17-byte entry is eight zero bytes, the place of the first block under the name, the size as it was given, and the type |
| `VolBytes.SpaceVolumeIsListed` | siege-modules/content/siege-content-3space/src/darkstar_resource.cpp:236-243 | for every list of plain-named files, a ` VOL` file whose header points at a 24-byte footer ending in the size of the names, with names, padding and index behind it, is listed as those files, whatever else the footer holds |
| `VolBytes.TagsDecide` | siege-modules/content/siege-content-3space/src/darkstar_resource.cpp:234-279 | the old layout's tag and any unknown tag are told apart from the two others |
| `VolBytes.IndexTagDecides` | siege-modules/content/siege-content-3space/src/darkstar_resource.cpp:342-345 | the index is missing if and only if its tag does not stand behind the names |
| `VolBytes.EntriesDecide` | siege-modules/content/siege-content-3space/src/darkstar_resource.cpp:350-402 | the index lists as many files as it has whole entries and there are names; an entry cut short, or one without any name, leads out of the vectors |
| `VolBytes.EntryRead` | siege-modules/content/siege-content-3space/src/darkstar_resource.cpp:376-394 | entry by entry, the name in its turn and the fields at bytes 8, 12 and 16 |
| `VolBytes.LongNameEndsTable` | siege-modules/content/siege-content-3space/src/darkstar_resource.cpp:301-312 | the first 101 bytes without a NUL end the names, which are all those before |
| `VolBytes.UnterminatedTableLosesByte` | siege-modules/content/siege-content-3space/src/darkstar_resource.cpp:296-299 | a table that does not end in a NUL loses the last byte of its last name |
| `VolRoundTrip.OwnTableReadExactlyAtOrigin` | siege-modules/content/siege-content-3space/src/darkstar_resource.cpp:230-250 | started at an archive written anywhere in a stream, the reader takes the patched field as a position from the origin, and ends behind the size of the archive's own string table if and only if the archive is written at position 0 |
| `VolRoundTrip.NotListedBehindZeros` | siege-modules/content/siege-content-3space/src/darkstar_resource.cpp:325-345 | behind enough zero bytes an archive is not listed: the index is missing |
| `VolRoundTrip.SameHeaderSameListing` | siege-modules/content/siege-content-3space/src/darkstar_resource.cpp:230-250 | an archive whose header equals the one at the origin is listed as the archive at the origin |
| `VolRoundTrip.SecondArchiveIsListedAsFirst` | siege-modules/content/siege-content-3space/src/darkstar_resource.cpp:184-188 | written behind another archive whose blocks take up as much space, an archive is listed as that other one |
| `VolWriter.CreateVolFile` | siege-modules/content/siege-content-3space/src/darkstar_resource.cpp:149-228 | the writer, with its padding loops and seek-back patch, leaves the stream holding exactly the archive image from where it started, the cursor behind it, and everything before untouched |
| `VolWriter.WriteBlocks` | siege-modules/content/siege-content-3space/src/darkstar_resource.cpp:158-180 | the loop over the files writes the blocks and fills the location map |
| `VolWriter.WriteBlock` | siege-modules/content/siege-content-3space/src/darkstar_resource.cpp:162-179 | one block: tag, 24-bit size, marker, as many payload bytes as the narrowed size says, NULs up to a multiple of four |
| `VolWriter.WritePadding` | siege-modules/content/siege-content-3space/src/darkstar_resource.cpp:173-179 | the counting loop writes exactly the least number of NULs that aligns its counter |
| `VolWriter.LocationIsFirst` | siege-modules/content/siege-content-3space/src/darkstar_resource.cpp:158-162 | for any files the location map sends each name to the block of the first file that carries it |
| `VolWriter.NarrowedSize` | siege-modules/content/siege-content-3space/src/darkstar_resource.cpp:164 | the 24-bit size field holds the declared size modulo 2^24 |
| `VolWriter.WriteStringTable` | siege-modules/content/siege-content-3space/src/darkstar_resource.cpp:190-211 | the names, NUL-terminated, behind a tag and their length, padded to an even length |
| `VolWriter.WriteIndex` | siege-modules/content/siege-content-3space/src/darkstar_resource.cpp:213-227 | the index holds one 17-byte entry per file with the place the map gives its name |
| `VolReader.GetFileListOffset` | siege-modules/content/siege-content-3space/src/darkstar_resource.cpp:230-251 | for both Darkstar layouts the cursor ends at the file list and the result is its size; another tag is an error |
| `VolReader.GetFileNames` | siege-modules/content/siege-content-3space/src/darkstar_resource.cpp:282-323 | the names are the string table split at NULs up to the first name over 100 bytes; an odd table skips one byte |
| `VolReader.ReadNames` | siege-modules/content/siege-content-3space/src/darkstar_resource.cpp:303-315 | the index loop over raw characters computes the recursive splitting |
| `VolReader.ReadEntries` | siege-modules/content/siege-content-3space/src/darkstar_resource.cpp:350-402 | the loop over raw entries pairs them with names in order, stopping when either runs out |
| `VolReader.GetFileMetadata` | siege-modules/content/siege-content-3space/src/darkstar_resource.cpp:325-403 | the listing is the index entries matched to the names, or the error for a missing index tag |
| `VolReader.SetStreamPosition` | siege-modules/content/siege-content-3space/src/darkstar_resource.cpp:456-466 | wherever the stream stands, the cursor ends right behind the block header |
| `VolReader.ExtractFileContents` | siege-modules/content/siege-content-3space/src/darkstar_resource.cpp:468-476 | an uncompressed extraction yields the bytes behind the block header and leaves the stream on the last of them |
| `Bytes.StoreThenLoad` | siege-modules/platform/src/endian.cpp:20-90 | storing an integer in a given number of little-endian bytes and loading it keeps exactly its residue modulo 256^width |
| `Bytes.LoadThenStore` | siege-modules/platform/src/endian.cpp:20-90 | every byte sequence is the stored form of the value loaded from it |
| `Bytes.ByteAt` | siege-modules/platform/src/endian.cpp:20-56 | byte i of a stored integer is its digit of weight 256^i |
| `Bytes.GetPaddingSize` | siege-modules/platform/src/platform_shared.cpp:119-130 | the counting loop returns the padding |
| `Bytes.PaddingIsMinimal` | siege-modules/platform/src/platform_shared.cpp:119-130 | no smaller amount of padding reaches a multiple of the alignment |
| `DetectionSafety.EveryReachableState` | siege-studio/src/views/default_view.cpp:671-682 | every state reachable by any interleaving of any number of workers and the UI thread satisfies the whole invariant |
| `DetectionSafety.StepKeepsInv` | siege-studio/src/views/default_view.cpp:1200-1268 | every atomic step of every thread keeps the invariant |
| `DetectionSafety.RunKeepsInv` | siege-studio/src/views/default_view.cpp:1200-1268 | so does every run from any state that satisfies it |
| `DetectionSafety.WakeUpStep` | siege-studio/src/views/default_view.cpp:671-682 | no wake-up is lost: with the window alive and something pending, the flag is set, or the UI thread is between clearing it and swapping the lists, or some worker has pushed and not yet scheduled |
| `DetectionSafety.FlagStep` | siege-studio/src/views/default_view.cpp:678-681 | messages queued, about to be posted, or taken but not acknowledged, plus those discarded, number 1 when the flag is set and 0 when it is clear |
| `DetectionSafety.OnceStep` | siege-studio/src/views/default_view.cpp:824-828 | every recorded path is in exactly one place (held by a worker, pending, batched, completed, given up), once, and nothing else is anywhere |
| `DetectionSafety.AtMostOneMessage` | siege-studio/src/views/default_view.cpp:678-681 | at most one flush message is ever outstanding, and with the window alive one is exactly when the flag is set |
| `DetectionSafety.LookingAgainIsOnlyASafeguard` | siege-studio/src/views/default_view.cpp:1223-1228 | whenever the UI thread's second look finds something, the flag is set or a worker is about to set it |
| `DetectionSafety.RestMeansEverythingCompleted` | siege-studio/src/views/default_view.cpp:1213-1221 | when all threads are at rest with the window alive, nothing is pending, the flag is clear, and the completed detections are exactly the recorded paths, once each |
| `DetectionSafety.NoPathCompletedTwice` | siege-studio/src/views/default_view.cpp:1006-1022 | in no run is a path completed twice |
| `DetectionSafety.NothingCompletedAfterDestroy` | siege-studio/src/views/default_view.cpp:1233-1268 | once the window is going no detection is completed any more, whatever still runs |
| `DetectionSafety.RunsOnlyAdd` | siege-studio/src/views/default_view.cpp:824-828 | completed detections stay in order and a recorded path is never forgotten or reclassified |
| `DetectionProgress.DrainStepDecreases` | siege-studio/src/views/default_view.cpp:1200-1231 | each step that is not new detection work lowers a rank |
| `DetectionProgress.DrainRunsAreBounded` | siege-studio/src/views/default_view.cpp:1200-1231 | so without new detections every run is finite, bounded by the rank |
| `DetectionProgress.DrainStepExists` | siege-studio/src/views/default_view.cpp:1200-1268 | unless everything is at rest some step can be taken: there is no deadlock |
| `DetectionProgress.StuckMeansEverythingCompleted` | siege-studio/src/views/default_view.cpp:1200-1231 | a run without new detections that cannot go on has completed every recorded path, once |
| `DetectionProgress.EverythingCanBeCompleted` | siege-studio/src/views/default_view.cpp:1200-1231 | from every state satisfying the invariant with the window alive there is a run of bounded length after which exactly the recorded paths are completed |
| `DetectionView.OthersLeaveWorker` | siege-studio/src/views/default_view.cpp:824-828 | no run of the other threads moves a worker |
| `DetectionView.WorkersLeaveUi` | siege-studio/src/views/default_view.cpp:1200-1231 | no run of the workers moves the UI thread, its rows or the activity flag, nor the pending lists while the UI thread holds the lock |
| `DetectionView.DefaultView.YieldWorker` | siege-studio/src/views/default_view.cpp:205-231 | any legal run of the threads other than a worker keeps the worker where it stands and forgets no path |
| `DetectionView.DefaultView.YieldUi` | siege-studio/src/views/default_view.cpp:205-231 | any legal run of the workers keeps the UI thread, its rows and the activity flag, and the pending lists while the lock is held |
| `DetectionView.DefaultView.AddPath` | siege-studio/src/views/default_view.cpp:824-828 | under the path lock a path is recorded once, with the kind it was first found as |
| `DetectionView.DefaultView.ReportDetection` | siege-studio/src/views/default_view.cpp:930-977 | the tail of both detection paths, with arbitrary interference between any two atomic operations: its first step records the path as the kind it was found as, a path seen before keeps its kind, and so do all others |
| `DetectionView.DefaultView.PushPending` | siege-studio/src/views/default_view.cpp:1012-1020 | a detection goes to the end of the list of its kind |
| `DetectionView.DefaultView.ScheduleDetectionFlush` | siege-studio/src/views/default_view.cpp:671-682 | so is scheduling by a worker, which posts a message if and only if it exchanges a clear flag |
| `DetectionView.DefaultView.WmFlushDetections` | siege-studio/src/views/default_view.cpp:1200-1231 | so is the flush handler: the rows grow by exactly what both lists held at the swap, known detections first, and it comes to rest |
| `DetectionView.DefaultView.DispatchFlush` | siege-studio/src/views/default_view.cpp:1262-1268 | a flush message taken after the window went shows nothing |
| `DetectionView.DefaultView.WmDestroy` | siege-studio/src/views/default_view.cpp:1233-1242 | destruction clears the activity flag and both lists and completes nothing |
| `DetectionView.ViewKeepsInvariant` | siege-studio/src/views/default_view.cpp:205-231 | the fields of the view satisfy the invariant after any calls under any interference |
| `DetectionView.RowsAreTheDetectedPaths` | siege-studio/src/views/default_view.cpp:205-231 | when all threads rest with the window alive, the rows are the recorded paths, each exactly once |
| `ConfigSaveLoad.ReloadsExactlyWhenPrintable` | siege-modules/content/siege-content-id-tech/src/id_tech_2.cpp:98-233 | for either line ending, a saved text that passes the gate loads as the same keys and values in order with the same line ending if and only if every entry has one value under one or two non-empty key segments, the value non-empty under two |
| `ConfigSaveLoad.ReproducedExactlyWhenPrintable` | siege-modules/content/siege-content-id-tech/src/id_tech_2.cpp:164-215 | the same for one printed line |
| `ConfigSaveLoad.RereadExactlyWhenAllReproduced` | siege-modules/content/siege-content-id-tech/src/id_tech_2.cpp:136-154 | the entries come back exactly when every single one does; no line can stand in for another |
| `ConfigSaveLoad.LoadingSavedText` | siege-modules/content/siege-content-id-tech/src/id_tech_2.cpp:98-162 | loading a saved text reads each printed line once and detects the line ending it was saved with |
| `ConfigSaveLoad.PrintingRendersWords` | siege-modules/content/siege-content-id-tech/src/id_tech_2.cpp:164-215 | the printer writes a line as its words, quoted where needed, separated by single spaces |
| `ConfigSaveLoad.LinesOfTerminated` | siege-modules/content/siege-content-id-tech/src/id_tech_2.cpp:20-41 | splitting a saved text gives the printed lines and one empty line |
| `ConfigSaveLoad.ReloadingKeepsAnswers` | siege-modules/content/siege-content-id-tech/src/id_tech_2.cpp:98-233 | saving and reloading printable entries changes no answer of `find` |
| `ConfigRoundTrip.SplittingIsLossless` | siege-modules/content/siege-content-id-tech/src/id_tech_2.cpp:20-41 | joining the lines gives back the text, and no line contains the separator if and only if the text does not begin with it |
| `ConfigRoundTrip.SeparatorsOnlyAtTheBeginning` | siege-modules/content/siege-content-id-tech/src/id_tech_2.cpp:20-41 | whatever the text, a line contains the separator only if it is the first and at its very beginning |
| `ConfigRoundTrip.ScannerReadsWords` | siege-modules/content/siege-content-id-tech/src/id_tech_2.cpp:43-94 | the scanner returns exactly the non-empty texts of the words of a line, bare or quoted, unless the line is one lone bare word |
| `ConfigRoundTrip.LoneBareWordLosesItsEnd` | siege-modules/content/siege-content-id-tech/src/id_tech_2.cpp:87-90 | a line that is one lone bare word loses its last character |
| `ConfigTokens.SpreadWordsAreTokens` | siege-modules/content/siege-content-id-tech/src/id_tech_2.cpp:82-90 | words with any runs of spaces and tabs between them, and maybe behind the last, are the tokens of their line |
| `ConfigTokens.OneTabSeparates` | siege-modules/content/siege-content-id-tech/src/id_tech_2.cpp:82-86 | in particular a single tab separates as a single space does |
| `ConfigTokens.TextBeforeQuoteIsLost` | siege-modules/content/siege-content-id-tech/src/id_tech_2.cpp:76-80 | text directly in front of a quote is lost |
| `ConfigTokens.TextBehindQuote` | siege-modules/content/siege-content-id-tech/src/id_tech_2.cpp:59-74 | text directly behind a quote is the next token, and a tab there belongs to it, because only a space is skipped |
| `ConfigTokens.UnclosedQuoteIsLost` | siege-modules/content/siege-content-id-tech/src/id_tech_2.cpp:59-80 | a quote that is not closed loses the rest of the line |
| `ConfigTokens.LeadingBlankSticks` | siege-modules/content/siege-content-id-tech/src/id_tech_2.cpp:82-86 | a blank at the beginning of a line belongs to its first token |
| `ConfigText.SplitIntoLines` | siege-modules/content/siege-content-id-tech/src/id_tech_2.cpp:20-41 | the index loop computes the pieces between separators, one at the very beginning going unseen |
| `ConfigText.SplitIntoSegments` | siege-modules/content/siege-content-id-tech/src/id_tech_2.cpp:43-94 | the scanning loop computes the tokens of the line |
| `ConfigText.LoadConfig` | siege-modules/content/siege-content-id-tech/src/id_tech_2.cpp:98-162 | nothing for an empty, refused or token-less text; otherwise the entries of the lines and the line ending found |
| `ConfigForms.OneLineLoads` | siege-modules/content/siege-content-id-tech/src/id_tech_2.cpp:121-161 | an accepted text without line breaks is one entry that keeps its text, with the default line ending |
| `ConfigForms.ShortTextsAndRefusedOnes` | siege-modules/content/siege-content-id-tech/src/id_tech_2.cpp:100-108 | a refused text is not loaded; an accepted one of one character is shorter than the separator |
| `ConfigForms.GateDecides` | siege-modules/content/siege-content-common/src/shared.cpp:270-280 | a text is accepted if and only if it is not empty, all its characters are ASCII blanks or printable, and the one at index 8192 is no letter |
| `ConfigText.ReadLine` | siege-modules/content/siege-content-id-tech/src/id_tech_2.cpp:138-153 | the last token is the value, the others the key; a lone token is a key with an empty value |
| `ConfigText.JoinLine` | siege-modules/content/siege-content-id-tech/src/id_tech_2.cpp:164-215 | the printed form of a line |
| `ConfigText.AppendSegment` | siege-modules/content/siege-content-id-tech/src/id_tech_2.cpp:171-191 | a key segment, quoted if it holds a space, and a space; nothing for an empty one |
| `ConfigForms.OneSegmentPrinted` | siege-modules/content/siege-content-id-tech/src/id_tech_2.cpp:164-215 | a segment is quoted if it holds a space; a value unless it begins with a plus sign and holds neither space nor semicolon |
| `ConfigForms.TwoSegmentsPrinted` | siege-modules/content/siege-content-id-tech/src/id_tech_2.cpp:164-215 | of two or more segments the first two are written, each with a space behind it |
| `ConfigForms.KeyPrintedAlone` | siege-modules/content/siege-content-id-tech/src/id_tech_2.cpp:209-212 | without a value the key stands alone, with no space behind it |
| `ConfigText.SaveConfig` | siege-modules/content/siege-content-id-tech/src/id_tech_2.cpp:217-233 | the printed lines, each with the line ending |
| `ConfigStore.StoreRefinesMap` | siege-modules/content/siege-content-common/src/shared.cpp:193-263 | after any run of `emplace` and `remove` on any entries, duplicates included, the store is the last-match-wins map after the same run, and `find` answers from it |
| `ConfigStore.OtherKeysKeepTheirAnswers` | siege-modules/content/siege-content-common/src/shared.cpp:240-263 | a key that a run does not name, however it is held, keeps its answer |
| `ConfigStore.FindReadsMap` | siege-modules/content/siege-content-common/src/shared.cpp:193-238 | `find` is look-up with the empty string for an absent key; `contains` is membership |
| `ConfigStore.EmplaceUpdatesMap` | siege-modules/content/siege-content-common/src/shared.cpp:240-254 | `emplace` is map update |
| `ConfigStore.RemoveDeletesFromMap` | siege-modules/content/siege-content-common/src/shared.cpp:256-263 | `remove` deletes the key, all of its entries included |
| `ConfigStore.EmplacedIsExact` | siege-modules/content/siege-content-common/src/shared.cpp:240-254 | `emplace` changes nothing but the value of the last entry under the key, or puts a line of its own behind all others |
| `ConfigStore.RemovedIsExact` | siege-modules/content/siege-content-common/src/shared.cpp:256-263 | `remove` leaves exactly the entries under other keys, in their order |
| `ConfigStore.EqualKeysHaveEqualSegments` | siege-modules/content/siege-content-common/src/shared.cpp:73-92 | keys compare equal if and only if their segments are the same, whether held as arrays or vector |
| `ConfigStore.TextGameConfig.FindLast` | siege-modules/content/siege-content-common/src/shared.cpp:195 | the reverse search finds the last entry under the key, or none |
| `ConfigStore.TextGameConfig.Find` | siege-modules/content/siege-content-common/src/shared.cpp:193-203 | the value of the last entry under the key |
| `ConfigStore.TextGameConfig.Contains` | siege-modules/content/siege-content-common/src/shared.cpp:228-238 | true if and only if some entry is under the key |
| `ConfigStore.TextGameConfig.Keys` | siege-modules/content/siege-content-common/src/shared.cpp:176-191 | the keys of all entries in order, those without segments left out |
| `ConfigStore.TextGameConfig.EntriesFor` | siege-modules/content/siege-content-common/src/shared.cpp:205-226 | all entries under the key in order |
| `ConfigStore.MatchingIsExact` | siege-modules/content/siege-content-common/src/shared.cpp:205-226 | `entries_for` returns what stands at exactly the places under the key, in order |
| `ConfigStore.NamedKeysAreExact` | siege-modules/content/siege-content-common/src/shared.cpp:176-191 | `keys` returns the keys at exactly the places whose key has segments, in order |
| `ConfigStore.FoundIsLastOfMatching` | siege-modules/content/siege-content-common/src/shared.cpp:193-226 | `find` answers the value of the last of `entries_for` |
| `ConfigStore.KeysNameTheMap` | siege-modules/content/siege-content-common/src/shared.cpp:176-191 | `keys` names exactly the keys of the map, the one without segments left out |
| `ConfigStore.TextGameConfig.Emplace` | siege-modules/content/siege-content-common/src/shared.cpp:240-254 | changes the value of the last entry under the key in place, or appends one |
| `ConfigStore.TextGameConfig.Remove` | siege-modules/content/siege-content-common/src/shared.cpp:256-263 | keeps exactly the entries under other keys, in order |
| `PakDecoder.DecodingInvertsEncoding` | siege-modules/content/siege-content-id-tech/src/pak_resource.cpp:292-359 | every well-formed token stream, ended by 255 and anything after it, or by nothing, decodes to what the tokens mean byte by byte |
| `PakDecoder.DecodingIsParsing` | siege-modules/content/siege-content-id-tech/src/pak_resource.cpp:292-359 | whatever the loop finishes on was the encoding of a well-formed token stream up to where it stopped, and the output is its meaning |
| `PakDecoder.TokenStreamsAreUnique` | siege-modules/content/siege-content-id-tech/src/pak_resource.cpp:299-358 | a terminated byte stream stands for one token stream only |
| `PakDecoder.BulkCopyIsByteByByte` | siege-modules/content/siege-content-id-tech/src/pak_resource.cpp:354-355 | inserting a back-reference in bulk is copying byte by byte as long as the size does not exceed the offset |
| `PakDecoder.PackedDataDecodes` | siege-modules/content/siege-content-id-tech/src/pak_resource.cpp:292-359 | every byte string survives a literal-only and a run-length encoder |
| `PakDecoder.DecodesLiteral` | siege-modules/content/siege-content-id-tech/src/pak_resource.cpp:309-319 | opcodes 0 to 63 copy one byte more than their value |
| `PakDecoder.DecodesRun` | siege-modules/content/siege-content-id-tech/src/pak_resource.cpp:321-335 | opcodes 64 to 127 stand for 2 to 65 zeros, 128 to 191 for 2 to 65 of the byte behind them |
| `PakDecoder.DecodesCopy` | siege-modules/content/siege-content-id-tech/src/pak_resource.cpp:336-357 | opcodes 192 to 254 copy 2 to 64 bytes from 2 to 257 back |
| `PakDecoder.LiteralCutShort` | siege-modules/content/siege-content-id-tech/src/pak_resource.cpp:311-314 | a literal with one byte too few runs out of the input, with fewer it ends the decoding |
| `PakDecoder.OperandMissing` | siege-modules/content/siege-content-id-tech/src/pak_resource.cpp:333-342 | a value run or a reference without its operand runs out of the input |
| `PakDecoder.BadReferenceStops` | siege-modules/content/siege-content-id-tech/src/pak_resource.cpp:344-352 | a reference longer than its distance, or from before the output, ends the decoding |
| `PakDecoder.DecodeBytes` | siege-modules/content/siege-content-id-tech/src/pak_resource.cpp:292-359 | the loop that shrinks the input and grows the output computes the decoding, stopping at 255 and at references it refuses |
| `Listing.FilterResultsForQuery` | siege-modules/content/siege-content-common/src/external_utils.cpp:184-210 | exactly the items shown in the folder, in order |
| `Listing.FilteredIsExact` | siege-modules/content/siege-content-common/src/external_utils.cpp:188-207 | shown in a folder are exactly the files in it and the folders whose parent it is, in their order |
| `Listing.FileWalk.GetFullListing` | siege-modules/platform/src/resource.cpp:146-161 | the recursion appends the files met under the items, in order |
| `Listing.GetAllFilesForQuery` | siege-modules/platform/src/resource.cpp:141-166 | terminates and returns the files of the walk from the folder |
| `ListingCount.FilesUnder` | siege-modules/platform/src/resource.cpp:141-166 | for any listing, the walk from a folder returns a file as often as it is listed times the number of ways folder entries lead down to it |
| `ListingFolders.FolderListing.AddFolders` | siege-modules/content/siege-content-common/src/external_utils.cpp:574-604 | afterwards the seen folders are the earlier ones and all those from the archive down to the file's; they are closed under ancestors and each but the archive is emitted exactly once over all calls |
| `ListingFolders.FolderListing.AddFile` | siege-modules/content/siege-content-common/src/external_utils.cpp:638-665 | a row adds its folders, from the top down, and then the file |
| `ListingFolders.BuildListing` | siege-modules/content/siege-content-common/src/external_utils.cpp:606-670 | the row loop lists the files in order and exactly one folder entry for each folder below the archive that holds a file somewhere under it |
| `ListingFolders.WalkReturnsEveryFile` | siege-modules/platform/src/resource.cpp:141-166 | the walk from the archive over such a listing returns every file exactly as often as it was given |
| `ListingFolders.WalkReturnsOnlyFiles` | siege-modules/platform/src/resource.cpp:156-159 | the walk returns nothing but files |
| `ListingFolders.ListAndWalk` | siege-modules/platform/src/resource.cpp:141-166 | listing any rows under the archive and walking from it gives back the rows as a multiset |
| `ListingCache.ContentCache.CachedGetContentListing` | siege-modules/content/siege-content-common/src/external_utils.cpp:258-281 | answers from the cache or the fresh listing, and stores the listing unless it is empty |
| `ListingCache.TransparentExactlyWhenKeysAgree` | siege-modules/content/siege-content-common/src/external_utils.cpp:258-281 | over all sequences of queries every answer is that of a fresh listing if and only if archives that share a cache key, the first with something to store, show the same in every folder |
| `ListingCache.CacheIsSound` | siege-modules/content/siege-content-common/src/external_utils.cpp:262-277 | every stored listing is that of some archive with its key |
| `ListingCache.KeysCanCollide` | siege-modules/content/siege-content-common/src/external_utils.cpp:258-281 | two different archives can have the same cache key, the size being appended without a separator, and the second one asked for is then not answered as by a fresh listing |
| `ListingCache.KeyUnderOnePath` | siege-modules/content/siege-content-common/src/external_utils.cpp:262 | the key is the path and, if the file exists, its size in decimal; under one path keys agree if and only if both files are missing or both exist with the same size |
| `PakFolders.IndexFolders` | siege-modules/content/siege-content-id-tech/src/pak_resource.cpp:188-214 | the index has a key for every folder that holds a file and for the parent of every such folder but the archive, each with its own entries in order |
| `PakFolders.IndexKeys` | siege-modules/content/siege-content-id-tech/src/pak_resource.cpp:190-213 | the folders of the index are those of the entries and their parents, the archive only if an entry lies directly in it |
| `PakFolders.EntriesInAreExact` | siege-modules/content/siege-content-id-tech/src/pak_resource.cpp:203 | a folder's entries are the archive's entries in it, in their order |
| `PakFolders.FolderIsCounted` | siege-modules/content/siege-content-id-tech/src/pak_resource.cpp:223-227 | a folder is listed under its own name with the number of the archive's entries in it |
| `PakFolders.FilesAreListed` | siege-modules/content/siege-content-id-tech/src/pak_resource.cpp:235-261 | Quake and SiN files have no compressed size, Daikatana files are compressed if and only if the sizes differ, DAT files always are |
| `PakFolders.ListFolder` | siege-modules/content/siege-content-id-tech/src/pak_resource.cpp:216-269 | what one folder shows, with file counts, sizes and compression, is the filtered flat listing of the index |
| `PakFolders.PakWalkFinds` | siege-modules/content/siege-content-id-tech/src/pak_resource.cpp:188-269 | the walk returns a file as often as its folder lists it if the folder is reachable, and never otherwise |
| `PakFolders.PakWalkCompleteExactlyWhenReachable` | siege-modules/content/siege-content-id-tech/src/pak_resource.cpp:188-269 | every entry is found as often as it is listed if and only if every folder strictly between the archive and an entry's folder holds a file or has a child folder that does |
| `PakFolders.TwoFoldersDeepIsReachable` | siege-modules/content/siege-content-id-tech/src/pak_resource.cpp:205-213 | paths at most two folders deep are always found |
| `PakFolders.ThreeFoldersDeepIsLost` | siege-modules/content/siege-content-id-tech/src/pak_resource.cpp:188-269 | a lone entry three folders deep is not returned by the walk, in whatever order the index is iterated |
| `BwdLinker.ExtractLinked` | siege-modules/content/siege-content-mw2/src/prj_resource.cpp:410-586 | the output is the root header, the kept chunks each with what it gained, and a root size that is the input's plus the bytes appended, patched at the end; fewer than eight stray bytes behind the last chunk are ignored |
| `BwdLinker.LinkChunks` | siege-modules/content/siege-content-mw2/src/prj_resource.cpp:439-582 | the chunk loop writes the kept chunks in order and sums what was appended |
| `BwdLinker.LinkChunk` | siege-modules/content/siege-content-mw2/src/prj_resource.cpp:454-581 | the branches: unresolved OBJ chunks, VPTF and MGDF are dropped, other chunks are kept, resolved ones with the file's bytes |
| `BwdReferences.ObjNeedsFile` | siege-modules/content/siege-content-mw2/src/prj_resource.cpp:454-473 | an OBJ chunk has its reference four bytes before its end; it comes out with the WTB file under that index, or not at all |
| `BwdReferences.AnimIsKept` | siege-modules/content/siege-content-mw2/src/prj_resource.cpp:474-496 | an ANIM chunk has its reference in front; it comes out with the TDI file under that index, or as it is |
| `BwdReferences.CptfIsKept` | siege-modules/content/siege-content-mw2/src/prj_resource.cpp:502-524 | a CPTF chunk likewise, with the CPI files |
| `BwdReferences.PitfIsKept` | siege-modules/content/siege-content-mw2/src/prj_resource.cpp:525-547 | a PITF chunk likewise, with the BWD files |
| `BwdReferences.AsndIsKept` | siege-modules/content/siege-content-mw2/src/prj_resource.cpp:553-575 | an ASND chunk likewise, with the SFL files |
| `BwdReferences.VptfAndMgdfAreDropped` | siege-modules/content/siege-content-mw2/src/prj_resource.cpp:497-552 | VPTF and MGDF chunks are dropped, chunks with a tag of none of these kinds are kept as they are |
| `BwdReferences.LinkedAddsUp` | siege-modules/content/siege-content-mw2/src/prj_resource.cpp:439-582 | chunks are linked one by one, in order |
| `BwdReferences.ChunkInBytes` | siege-modules/content/siege-content-mw2/src/prj_resource.cpp:337-347 | a chunk is its tag, its size with the eight bytes in front counted, and its data |
| `BwdReferences.RootInBytes` | siege-modules/content/siege-content-mw2/src/prj_resource.cpp:410-432 | the root of an input is `BWD`, the size of everything, and a version |
| `BwdReferences.LinkedRootInBytes` | siege-modules/content/siege-content-mw2/src/prj_resource.cpp:423-429 | the root of the output keeps tag and version and declares the input's bytes and those gained |
| `BwdLinker.WriteWithFile` | siege-modules/content/siege-content-mw2/src/prj_resource.cpp:464-471 | the chunk, its declared size grown by the file's size, then exactly the file's bytes |
| `BwdLinker.LinkedFileReadsBack` | siege-modules/content/siege-content-mw2/src/prj_resource.cpp:410-585 | read again, the output's chunks are the kept ones in order with their grown sizes, and the patched root size exceeds the bytes written by exactly the size of what was dropped or stray |
| `BwdLinker.RootSizeRightExactlyWhenNothingDropped` | siege-modules/content/siege-content-mw2/src/prj_resource.cpp:584-585 | the root's size is right if and only if no chunk was dropped and no byte was stray |
| `BwdLinker.VptfBreaksRootSize` | siege-modules/content/siege-content-mw2/src/prj_resource.cpp:497-501 | with one VPTF chunk the root declares 22 bytes where there are 12 |
| `BwdLinker.SizesBalance` | siege-modules/content/siege-content-mw2/src/prj_resource.cpp:439-582 | bytes written and dropped are bytes read and gained |
| `BwdLinker.ChunkStreamParses` | siege-modules/content/siege-content-mw2/src/prj_resource.cpp:439-452 | a chunk stream reads back as its chunks |
| `BitmapFlip.Invert` | siege-modules/platform/src/bitmap.cpp:46-50 | reverses the buffer in place |
| `BitmapFlip.HorizontalFlip` | siege-modules/platform/src/bitmap.cpp:52-59 | reverses every row in place |
| `BitmapFlip.VerticalFlip` | siege-modules/platform/src/bitmap.cpp:61-66 | reverses the order of the rows in place, leaving the rows themselves alone |
| `BitmapFlip.InvertThenReverseRows` | siege-modules/platform/src/bitmap.cpp:61-66 | reversing the buffer and then every row is reversing the order of the rows |
| `BitmapFlip.FlipMovesRows` | siege-modules/platform/src/bitmap.cpp:61-66 | row r goes to row height - 1 - r |
| `BitmapFlip.FlipTwice` | siege-modules/platform/src/bitmap.cpp:61-66 | a vertical flip is its own inverse |
| `BmpFile.WriteBmp` | siege-modules/platform/src/bitmap.cpp:273-363 | for 8-bit pixels, writes the whole file, rows padded to multiples of four, or nothing if the pixels do not fit the size |
| `BmpFile.WriteRows` | siege-modules/platform/src/bitmap.cpp:341-362 | rows with their padding, in one go when there is none |
| `BmpFile.ReadPixels` | siege-modules/platform/src/bitmap.cpp:169-201 | for 8-bit pixels, the rows with their padding skipped |
| `BmpFile.ReadBmp` | siege-modules/platform/src/bitmap.cpp:203-271 | the size, palette and pixels of an 8-bit bitmap, or that the tag is missing |
| `BmpFile.BitmapRoundTrip` | siege-modules/platform/src/bitmap.cpp:169-363 | reading a written 8-bit bitmap with the same flip setting gives back the size, the pixels and the 256 colours |
| `BmpFile.RoundTripExactlyWithFullPalette` | siege-modules/platform/src/bitmap.cpp:224-232 | the whole contents come back if and only if there were 256 colours |
| `BmpLayout.BitmapInBytes` | siege-modules/platform/src/bitmap.cpp:14-38 | every field of both headers, and each colour as blue, green, red and zero |
| `BmpLayout.RowsInBytes` | siege-modules/platform/src/bitmap.cpp:341-362 | each row on its multiple of four bytes with zeros behind it, the last one first if flipped |
| `BmpLayout.TagDecides` | siege-modules/platform/src/bitmap.cpp:208-211 | the tag is missing if and only if the data do not begin with `BM` |
| `Palette.ZeroExactlyForSameRgb` | siege-modules/platform/src/palette.cpp:44-51 | the distance is zero if and only if red, green and blue agree |
| `Palette.Contributions` | siege-modules/platform/src/palette.cpp:46-50 | what red, green and blue each contribute to the squared distance of any two colours |
| `PaletteRemap.CandidatesCoverTargets` | siege-modules/platform/src/bitmap.cpp:399-405 | the ordered map of distances is in order, holds only targets with their distance, and every target's distance, standing for the last target that far away |
| `PaletteRemap.MapPalette` | siege-modules/platform/src/bitmap.cpp:383-432 | the loop over the source palette fills the map entry by entry |
| `PaletteRemap.RemapBitmap` | siege-modules/platform/src/bitmap.cpp:365-441 | pixels unchanged for equal palettes, else looked up, those outside the source palette becoming 0 |
| `PaletteRemap.EveryColourGoesToNearest` | siege-modules/platform/src/bitmap.cpp:392-430 | without uniqueness every source colour goes to a target at the least distance |
| `PaletteRemap.PixelsShowNearestColours` | siege-modules/platform/src/bitmap.cpp:366-441 | so every pixel inside the source palette shows a colour at the least distance |
| `PaletteRemap.ExactMatchWins` | siege-modules/platform/src/bitmap.cpp:388-396 | an exact match is taken in either mode |
| `PaletteRemap.RepeatsExactlyWhenNothingFree` | siege-modules/platform/src/bitmap.cpp:407-425 | with uniqueness a choice repeats an earlier one if and only if its exact match is taken or, without one, the target of every distance is |
| `PaletteRemap.ChoiceIsNearestFree` | siege-modules/platform/src/bitmap.cpp:407-420 | with uniqueness a source without an exact match goes to the nearest free target |
| `PaletteRemap.ChoiceWithoutFreeIsNearest` | siege-modules/platform/src/bitmap.cpp:422-425 | and to the nearest of all when none is free |
| `PaletteRemap.UniqueExactlyWhenExactMatchesDiffer` | siege-modules/platform/src/bitmap.cpp:385-432 | with at least as many targets as sources, if every source without an exact match has no two targets equally far away and, standing at place x, more than x targets nearer than any later source's exact match, the mapping is injective if and only if the exact matches differ |
| `PaletteRemap.UniqueExactlyWhenFirstMatchesDiffer` | siege-modules/platform/src/bitmap.cpp:385-432 | in particular when the sources with exact matches come first |
| `PaletteRemap.SameExactMatchIsShared` | siege-modules/platform/src/bitmap.cpp:388-396 | for all palettes, two sources with the same exact match share it, so that the mapping is not injective |
| `PaletteRemap.UniqueExactlyWhenAlwaysFree` | siege-modules/platform/src/bitmap.cpp:385-432 | in general the mapping is injective if and only if at every step the choices before it had left something free; this speaks about the course of the loop and cannot be checked beforehand |
| `PaletteRemap.EnoughTargetsAreUsedOnce` | siege-modules/platform/src/bitmap.cpp:407-425 | in particular without exact matches |
| `PaletteRemap.ExactMatchCanRepeat` | siege-modules/platform/src/bitmap.cpp:388-396 | with an exact match behind another source the mapping need not be injective, even with targets to spare and exact matches that differ |

## Left out

- VolWriter.CreateVolFile: positions are kept as they are and narrowed to 32 bits where they are stored; counting padding in an `int` across 2^31 is taken to wrap around. Each file's stream must still hold as many bytes as its narrowed size says; it is modelled by the bytes it holds.
- VolReader.GetFileListOffset: the three-space `VOL ` layout (darkstar_resource.cpp:252-275), which has no writer, is reported as an error; running past one of the reader's own vectors is an error outcome as well.
- VolReader.ExtractFileContents: the compressed branches call external tools; asking for bytes beyond the stream is not modelled. Where `std::copy_n` leaves the stream is not laid down; it is taken to be the last byte copied, as in the common libraries.
- `is_stream_supported`, the mapping of compression codes and the stream resetter of the VOL reader: only easy members.
- Big-endian integers, comparison and increment of `endian_int_t`: not needed by the cores above.
- DetectionView.DefaultView.ReportDetection: what decides that a file is a game (extension look-up, name filters, neighbouring executables) is left to the caller; completing a detection is one abstract step that appends a row.
- DetectionView.DefaultView.PostMessage: posting always succeeds; a message that arrives after the window went is taken and discarded.
- Detection protocol: `ui_updates_active` is a plain `bool` read by several threads; its accesses are taken to be sequentially consistent, as are those of the atomic flag.
- Detection protocol: the ordering of `detect_games` over roots, its work items and its search sets; a run may add workers at any time and each may report any paths.
- ConfigSaveLoad.ReloadsExactlyWhenPrintable: entries with quotes, tabs or line breaks in a key or value, for which the format has no escape, are not covered; that the text passes `is_ascii_text_config` is a hypothesis.
- ConfigText.JoinLine: an entry without value and with two empty key segments, for which the code reads the last character of an empty string.
- ConfigText.LoadConfig: a text shorter than the separator, for which the code compares past the buffer, has an outcome of its own. The stream is the text from its current position to its end.
- Configuration: the `std::any` context is reduced to the line ending; string views are values, so their lifetime is not modelled; `ini.cpp` and `3space.cpp` hold copies of the line splitter and no printer.
- PakDecoder.DecodeBytes: a stream whose last opcode lacks its operands, for which the code leaves the buffer, has an outcome of its own. Inserting a part of the output into the output is taken to read the old contents, as it does while the reserved capacity lasts.
- PAK archives: the directory reader (lines 80-186) and the zlib branch (lines 361 on).
- Listing.GetAllFilesForQuery: the folder asked for has at least one name; the listing is the same at every query of one walk.
- Paths are sequences of names with decidable equality: `fs::relative`, `make_preferred`, string conversion and file-system queries are not modelled.
- ListingFolders.BuildListing: parsing the rows of the external tool's output; sizes and offsets come with the rows.
- ListingCache.TransparentExactlyWhenKeysAgree: a lister is a function of the archive; temporary files and the commands it runs are left out.
- PakFolders.ListFolder: an archive without entries, for which the code divides by zero, is excluded; the order in which the hash map is iterated is a parameter.
- BwdLinker.ExtractLinked: chunks stand in a row, cover their headers and reach far enough to hold their reference, and fewer than eight bytes follow the last one; files lie within the stream; files that are not BWD are copied as they are and building the tables of files by index (lines 349-408) is not part of this model.
- BmpFile.WriteBmp: 8-bit only; the 24-bit path writes four bytes a pixel and the reader takes three. Without pixels the flip turns the palette instead, which is not part of this model. Sizes are unbounded, so that overflow of the 32-bit stride is not modelled.
- BmpFile.ReadPixels: 8-bit only, and a stride that does not overflow a 32-bit integer, as BmpFile.Fits asks.
- BmpFile.ReadBmp: other bit depths, sizes beyond a 32-bit buffer and a flip without pixels are reported as unsupported.
- Palette.ZeroExactlyForSameRgb: the distance is the integer under the square root; on these values the root in double precision is strictly monotone.
- PaletteRemap.RemapBitmap: the narrowing of a target index to the pixel type, which loses nothing for palettes of at most 256 colours.
- PaletteRemap.UniqueExactlyWhenAlwaysFree: when a source without an exact match has fewer nearer targets than that in front of a later source's exact match, whether it takes that match depends on what the sources before it took; no condition on the palettes alone is given for this case.
