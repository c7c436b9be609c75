# A verified model of the Android recovery update path

This project models the parts of an Android recovery that an over-the-air update depends on, and proves what they promise:

- **imgdiff and imgpatch.** imgdiff cuts a source and a target into chunks, merges, re-types and splits them, and writes a binary patch file; imgpatch parses and executes that file. The theorems say that the file means the target: applying it to the source gives the target, byte for byte, in image mode (with or without bonus data), in zip mode, and in zip mode split under a block limit. The conditions are on the two files: the processed chunk lists and the pieces of a split are functions of them, and `ImageMembers`, `ZipMembers` and `ZipSplitUse` say without those functions which members and entries are found, which stay compressed, and which source blocks a split uses. `PatchGrammar` is the patch file format as a grammar: exactly what it describes is accepted. `Codecs` holds bsdiff, bspatch, inflate and deflate as function values with the laws that are used; `EscapingObeysTheLaws` shows a library that meets them and whose inflation undoes its deflation, and the counterexamples are files for that library.
- **applypatch.** A partition, a backup file on /cache and a patch run that may fail or be cut off in any system call. `ApplyPatch` is the protocol as a state machine over whole runs, `ApplyPatchCode` the code on a device whose system calls are partial, fail, store wrong bytes or never return.
- **The sideload file system.** A one-block cache and a table of block hashes over a provider that is not trusted.
- **Digests.** Two SHA-1 implementations of different shape, a streaming MD5, and a table-driven CRC-32.
- **The bootloader control block.** Options printed into a fixed field and parsed back, and the retry counter that travels in it across reboots and power losses.
- **Binary parsers.** ASN.1 and PKCS#7 extraction with the footer of a signed archive, DER ECDSA signatures, and the settings database.

Code that works by changing things is modelled by methods and classes with loops and arrays; each is tied to a specification function, and what is promised is proved about that function. Byte strings of the digests and 32-bit words are bit vectors; everything else is integers with the 32-bit and 64-bit arithmetic of the source written out.

## Where a promise does not hold as stated

Each of these is kept as the code has it, with a concrete or general counterexample and the exact condition.

- A deflate chunk with empty contents makes imgpatch reject a correct patch, because its compressing sink never runs (`ImageMode.EmptyMemberIsRefused`). All end-to-end theorems carry this condition, as an if-and-only-if.
- In zip mode two target entries can share a source entry, and the second can take the deflate source away from the first (`ZipMode.SharedSourceIsLost`, `ZipMode.ZipModeRebuildsIff`). Splitting under a limit is not affected.
- Image mode computes the footer position of a gzip member with unsigned arithmetic; the chunks tile the file exactly when no accepted footer lies past its end (`ImageMode.InitializeTilesIff`, `ImageMode.FooterCanBeMissing`).
- The limit of a split counts the bytes of a source, not its blocks: a single source can take up to two blocks more than the limit (`ZipSplitUse.BlocksMayExceed`, `ZipSplitUse.SecondPiece`). A used end block is trimmed off a source only where it is shared with a neighbour (`ZipSplit.TrimsTheEnds`).
- Splitting aborts when a target entry called "-0" finds a central directory over the limit (`ZipSplitPatches.MatchesFitIff`, `ZipSplitPatches.OverLimitHappens`).
- applypatch saves the backup again even when it resumed from it; cut off there, the only copy of the source is lost (`ApplyPatch.ResumedSaveLoses`, `ApplyPatch.RunKeepsSafeIff`).
- Making room on /cache stops after the first deleted file when space is still short, and deletes everything else when it is not (`ApplyPatchCode.MakeFreeSpaceOnCache`, `ApplyPatchCode.GivesUpEarly`).
- The sideload cache keeps naming a block whose buffer a failing provider has overwritten (`FuseSideload.ConsistentIffQuiet`, `FuseSideload.DisturbedSession`); and a 32-bit product asks an honest provider for bytes past the end of a file whose last, partial block starts at 4 GiB or later (`FuseSideload.RefinesFileIff`).
- The retry counter is lost when the options outgrow the field; each retry adds args[0] to them once more (`RetryProtocol.CountSurvivesIff`).
- An empty key or value of the settings database comes back as "o" (`Settings.RoundTripIff`).

Where code and documentation disagree, the model follows the code: the comment on `Unserialize` says that existing keys are not overwritten, but they are; the comment on `MD5Final` says that the bit count is stored most significant byte first, but it is stored least significant byte first, as RFC 1321 wants; `is_numeric` accepts every character up to '9'.

## Model

| member | source | states |
|---|---|---|
| PatchFile.WritePatchDataToFd | applypatch/imgdiff.cpp:545-579 | appends to the descriptor exactly the patch file of its chunks: magic, count, all headers with the offsets of their bsdiff data, then the data in order |
| PatchFile.RecordedSizeIsFileSize | applypatch/imgdiff.cpp:1176-1180 | the size summed up from PatchSize() plus 12 is the number of bytes that are written, for every list of chunks |
| ImgPatch.WrittenFileMeansTarget | applypatch/imgpatch.cpp:141-291 | for every list of patch chunks that describe target pieces, the interpreter run on the file written for them outputs the concatenated target, or rejects the file exactly when some deflate chunk has nothing to compress or its source does not inflate to the announced length |
| ImgPatchCode.CompressionSink.Deliver | applypatch/imgpatch.cpp:79-110 | one delivery to the sink: all bytes are fed to the deflate stream, whatever was emitted went to the output and to the SHA context, and it is refused once the stream has ended |
| ImgPatchCode.ApplyBSDiffPatchAndStreamOutput | applypatch/imgpatch.cpp:52-133 | the output and the SHA context receive the deflate stream of the patched data, however bspatch cuts it into deliveries; it fails unless the patched data is non-empty and of the announced length |
| ImgPatchCode.ApplyImagePatch | applypatch/imgpatch.cpp:141-291 | the loop over chunk records delivers the meaning of the patch file to the sink and to the SHA context, and reports rejected files |
| PatchGrammar.PatchedIff | applypatch/imgpatch.cpp:141-291 | a file is patched to an output if and only if it starts with "IMGDIFF2" and a count, that many records of the three kinds follow one another, field by field, each can be carried out, and the output is what they give in order; every other file is rejected or stops the program |
| PatchGrammar.MalformedIsRejected | applypatch/imgpatch.cpp:141-291 | a file that is shorter than its header or has another magic is rejected; so is one that ends within a record, or goes on with an unknown type, after any number of good records |
| ImageChunks.TilingIsTheFile | applypatch/imgdiff.cpp:269-272 | the raw bytes of chunks that tile a stretch of a file concatenate to that stretch |
| ImageChunks.Image.MergeAdjacentNormalChunks | applypatch/imgdiff.cpp:591-611 | compacting the chunk list in place computes the merge of its runs of adjacent normal chunks |
| ImageChunks.MergeTiles | applypatch/imgdiff.cpp:591-611 | merging keeps the tiling of every list of chunks |
| ImageChunks.MergeIsComplete | applypatch/imgdiff.cpp:591-611 | no mergeable pair is left |
| ImageChunks.MergeCollapsesKinds | applypatch/imgdiff.cpp:591-611 | on a tiling, the types after merging are the types before it with runs of normal chunks collapsed |
| ImageChunks.TryReconstruction | applypatch/imgdiff.cpp:403-442 | true exactly when the uncompressed data deflates, at this level, to the bytes of the chunk |
| ImageChunks.ReconstructDeflateChunk | applypatch/imgdiff.cpp:380-396 | true exactly when level 6 or level 9 reproduces the chunk; the level kept is the first that does |
| PatchMaking.PatchDescribesChunk | applypatch/imgdiff.cpp:444-471 | the patch chunk made for a target chunk and its source describes the target chunk, wherever the source bytes are found when it is applied; it will be refused only for an empty deflate chunk |
| PatchMaking.SmallestIsChosen | applypatch/imgdiff.cpp:444-471 | a normal chunk of up to 160 bytes is stored; a longer one is stored or diffed, whichever is smaller; a deflate chunk is always diffed, on its uncompressed data |
| ImageMode.Initialize | applypatch/imgdiff.cpp:1246-1359 | the scan for gzip members terminates and computes the chunk list of the recursive scan |
| ImageMode.InitializeTilesIff | applypatch/imgdiff.cpp:1246-1359 | the chunks tile the file if and only if no accepted gzip member has its footer past the end of the file |
| ImageMode.FooterCanBeMissing | applypatch/imgdiff.cpp:1314-1329 | a gzip file that ends with its body: some contents of the memory behind it lead the chunks past its end |
| ImageMode.ScanFaithful | applypatch/imgdiff.cpp:1274-1335 | every deflate chunk holds what its bytes inflate to |
| ImageMembers.MemberIsFound | applypatch/imgdiff.cpp:1246-1359 | every gzip member of a file that does not begin inside an earlier one, or within ten bytes of an earlier header, becomes a deflate chunk with its inflated data |
| ImageMembers.FoundIsMember | applypatch/imgdiff.cpp:1246-1359 | every deflate chunk is the body of a gzip member: header, data that inflates, and a footer with its size, unless that footer lies outside the file |
| ImageMode.CheckAndProcessChunks | applypatch/imgdiff.cpp:1375-1427 | fails exactly when there are no parallel lists; otherwise both chunk lists become the parallel ones, and the branch "Merging normal chunks went awry" is never taken |
| ImageMode.ParallelIsReady | applypatch/imgdiff.cpp:1373-1427 | parallel lists exist exactly when source and target have the same sequence of types after merging; they tile both files, agree in their types and have nothing left to merge; a deflate target recompresses to its bytes, and is empty exactly when an empty member differs from its source and can be recompressed |
| ImageMembers.SurvivingTargets | applypatch/imgdiff.cpp:1386-1410 | the deflate chunks of the target list are exactly the members that differ from their source and deflate to their own bytes at level 6 or else 9, with that level |
| ImageMembers.SurvivingSources | applypatch/imgdiff.cpp:1386-1410 | the deflate chunks of the source list are exactly their sources |
| ImageMode.GeneratePatches | applypatch/imgdiff.cpp:1431-1472 | one patch chunk for each pair of chunks, raw where the raw data is smaller |
| ImageMode.PatchesAreSmallest | applypatch/imgdiff.cpp:1431-1472 | what each chunk of the list costs, with the numbers of the code: a normal chunk over 160 bytes costs the smaller of its length and its difference from the source chunk of the same place |
| ImageMode.ImageModeRebuilds | applypatch/imgdiff.cpp:1431-1472 | for any two files: there is a patch exactly when they have the same structure and the second source chunk takes the bonus data, if there is any; applying it to the source gives exactly the target, if and only if no empty gzip member of the target differs from its source and can be recompressed, and otherwise it is rejected |
| ImageMode.Imgdiff | applypatch/imgdiff.cpp:1591-1613 | image mode as it runs, from two files and bonus data to the patch file of that theorem, with its conditions on the files |
| ImageMode.EmptyMemberIsRefused | applypatch/imgpatch.cpp:112-123 | for any two one-member gzip files with different contents the patch gives the target, unless the target is empty: then nothing reaches the compressing sink and the patch is rejected |
| ZipMode.AddZipEntryToChunks | applypatch/imgdiff.cpp:760-800 | the chunks of an entry: none for an empty one, normal pieces above the limit, otherwise one chunk; it fails when a deflated entry cannot be extracted |
| ZipMode.InitializeTarget | applypatch/imgdiff.cpp:728-755 | the loop over positions and entries computes the chunk list of the target |
| ZipMembers.TargetHolds | applypatch/imgdiff.cpp:728-800 | there is a chunk list for a target exactly when every deflated entry within the limit can be extracted; then every entry has its chunk, or all its numbered pieces, with name, place, kind and data |
| ZipMode.TargetTiles | applypatch/imgdiff.cpp:728-755 | the chunks of every target tile the whole file and hold what their bytes inflate to |
| ZipMode.InitializeSource | applypatch/imgdiff.cpp:704-726 | the chunks of all entries, then the rest of the file as the central directory; it fails when an entry cannot be extracted |
| ZipMembers.SourceHolds | applypatch/imgdiff.cpp:704-726 | the same for a source, with the central directory as the last chunk |
| ZipMode.SourceListIs | applypatch/imgdiff.cpp:704-726 | the chunks of every source lie in the file, are not empty and hold what their bytes inflate to; all but the directory are within the limit, and the directory reaches the end of the file |
| ZipMode.FindChunkByName | applypatch/imgdiff.cpp:834-857 | the first chunk whose name matches, up to the "-0" suffix of split entries |
| ZipMode.CheckAndProcessChunks | applypatch/imgdiff.cpp:864-899 | both chunk lists after the loop, which changes source chunks while later target chunks still look for them |
| ZipMode.ProcessChecks | applypatch/imgdiff.cpp:864-899 | every deflate chunk left in the target can be recompressed to its own bytes, and no chunk has moved |
| ZipMode.ProcessKeepsSources | applypatch/imgdiff.cpp:864-899 | if no two target entries compete for a source chunk, every deflate target that is left still has its deflate source |
| ZipMembers.EntryStaysIff | applypatch/imgdiff.cpp:864-899 | if no two target entries compete for a source chunk, an entry stays deflate, at the first of the levels 6 and 9 that gives its bytes, exactly when the first deflate chunk of its name differs from it and one of the levels does |
| ZipMode.UnsharedUsableIff | applypatch/imgdiff.cpp:864-899 | if no two target entries compete for a source chunk, the patch is usable if and only if no empty deflated entry differs from its source and can be recompressed, each entry taken on its own |
| ZipMode.SharedSourceIsLost | applypatch/imgdiff.cpp:873-889 | zip files in which two target entries share a source entry: the second takes the deflate source away from the first, and the patch that is written for them is rejected |
| ZipMode.GeneratePatchesInternal | applypatch/imgdiff.cpp:1098-1140 | one patch chunk for each target chunk, against the deflate source of its name or against the whole source |
| ZipMode.PatchesAreSmallest | applypatch/imgdiff.cpp:1098-1140 | what each chunk of the list costs, with the numbers of the code: a normal chunk over 160 bytes costs the smaller of its length and its difference from the whole source |
| ZipMode.ZipModeRebuildsIff | applypatch/imgdiff.cpp:1098-1158 | for any two zip files, applying the written patch to the source gives exactly the target if and only if every deflated target entry that survives the processing has contents and still has its source; otherwise it is rejected |
| ZipMode.ImgdiffZip | applypatch/imgdiff.cpp:1553-1590 | zip mode without a limit as it runs, from two zip files to the patch file of that theorem; it fails exactly when a deflated entry cannot be extracted |
| RangeSets.UnionCovers | otautil/rangeset.cpp:202-226 | insertion is the union of the blocks, keeps the ranges sorted with gaps between them, and never counts more blocks than were put in |
| RangeSets.SortedRangeSet.InsertRanges | otautil/rangeset.cpp:202-226 | the in-place insertion computes that union, and the block count stays the total of the ranges |
| RangeSets.SortedRangeSet.OverlapsRanges | otautil/rangeset.cpp:175-189 | true exactly when some block belongs to both sets |
| RangeSets.GetOffsetInRangeSet | otautil/rangeset.cpp:248-267 | the offset in the gathered bytes, or the failure of its CHECK |
| RangeSets.RelocatedBytes | otautil/rangeset.cpp:238-267 | a stretch of the file whose blocks all belong to the set is found whole at its new offset in the gathered bytes |
| ZipSplit.AlignHead | applypatch/imgdiff.cpp:197-208 | moves the start to the next block boundary and keeps the end; fails exactly when nothing is left |
| ZipSplit.AlignTail | applypatch/imgdiff.cpp:211-221 | moves the end back to the last block boundary; fails exactly when nothing is left |
| ZipSplit.RemoveUsedBlocks | applypatch/imgdiff.cpp:226-246 | the first of three candidates that uses no used block: the stretch itself, its part after the first block boundary, and its part between block boundaries |
| ZipSplit.TrimsTheEnds | applypatch/imgdiff.cpp:226-246 | a stretch of several blocks in which only the first or the last block is used is trimmed to block boundaries; it is given up exactly when a used end block is filled to its boundary, or nothing is left between the two |
| ZipSplit.AddSplitImageFromChunkList | applypatch/imgdiff.cpp:992-1061 | computes the piece; none exactly when the chunks end before the next block boundary; otherwise it tiles from that boundary to the boundary after its end (or the end of the file), with nothing left to merge, and holds the bytes of its source ranges, which are not empty |
| ZipSplitRun.ValidateSplitImages | applypatch/imgdiff.cpp:1063-1096 | none of its CHECKs fails if and only if the target pieces follow each other from block boundary to block boundary over the whole target and no source block is used twice |
| ZipSplitRun.PlaceSource | applypatch/imgdiff.cpp:926-975 | one turn of the loop for a target chunk with a source: it follows the recursive split, keeps the state invariant, and when it does not advance it empties the ranges, which were not empty |
| ZipSplitRun.SplitZipModeImageWithLimit | applypatch/imgdiff.cpp:904-990 | the split terminates although it steps back, and computes the recursive split; it aborts if and only if a matched source chunk is over the limit; its pieces pass validation, leave the central directory to the last piece, hold the blocks of every deflate source they keep, and stay within the limit up to two ragged blocks, but for the last |
| ZipSplitUse.FreeSourceIsUsed | applypatch/imgdiff.cpp:926-976 | for every target chunk whose named source shares no block with the directory or with the source of another target chunk, some piece holds all blocks of that source, and a deflate source and its target as such, unless the piece starts in the middle of that target; or else the piece gathered for it came out empty, which happens only when it and all target chunks after it stay within a block, up to the end or up to one whose source no longer fits |
| ZipSplitUse.SecondPiece | applypatch/imgdiff.cpp:945-976 | there are at least two pieces whenever such sources of target chunks that cross a block boundary exceed the limit, counted in bytes, or exceed it by two blocks, counted in blocks |
| ZipSplitUse.BlocksMayExceed | applypatch/imgdiff.cpp:945-946 | counted in blocks the limit alone is not enough: a source of 4096 bytes in two blocks fits a limit of 4096 in one piece |
| ZipSplitUse.PiecesAreFair | applypatch/imgdiff.cpp:945-946 | the sources of that kind that one piece holds are within the limit together, and within less than two blocks more when counted in blocks |
| ZipSplitUse.PiecesAreFull | applypatch/imgdiff.cpp:957-976 | no piece is closed early: every piece but the last has no room left for the source of some target chunk |
| ZipSplitUse.SourcesThatFit | applypatch/imgdiff.cpp:945-976 | when the blocks of all named sources together are within the limit, the split does not abort and has one piece |
| ZipSplitPatches.MatchesFitIff | applypatch/imgdiff.cpp:934-938 | that abort happens only when the central directory is over the limit and a target chunk called "-0" finds it |
| ZipSplitPatches.OverLimitHappens | applypatch/imgdiff.cpp:934-938 | for every limit, two zip files for which it happens |
| ZipSplitPatches.PieceRebuilds | applypatch/imgdiff.cpp:1168-1187 | the patch of a piece turns the gathered source blocks of the piece into its part of the target, unless it keeps an empty deflate stream |
| ZipSplitPatches.GeneratePatches | applypatch/imgdiff.cpp:1160-1199 | the patch file is the patch files of the pieces one after the other, and each line of split information records the bytes written, the size of the piece and its ranges |
| ZipSplitPatches.SplitRebuilds | applypatch/imgdiff.cpp:1160-1236 | cutting the patch file by the recorded sizes and applying each part to its source blocks rebuilds exactly the target, if and only if no piece keeps an empty deflate stream |
| ZipSplitPatches.NoEmptyEntryNoEmptyStream | applypatch/imgdiff.cpp:904-990 | a target without an empty entry is split into pieces without an empty stream, so that the patch rebuilds it |
| ZipSplitPatches.ImgdiffZipSplit | applypatch/imgdiff.cpp:1553-1585 | zip mode with a block limit as it runs: it fails exactly when an entry cannot be extracted, aborts exactly when a target chunk finds a central directory over the limit, and otherwise its patch file and split information rebuild the target if and only if no piece of the recursive split of the two files keeps an empty stream |
| ApplyPatch.LoadFindsSmallest | applypatch/applypatch.cpp:80-95 | loading a partition gives the smallest listed prefix whose hash matches, and nothing only if no listed prefix matches |
| ApplyPatch.SuccessMeansTarget | applypatch/applypatch.cpp:459-476 | a run that reports success leaves the target in the partition, from every state, with every failure before, and whatever the patches are |
| ApplyPatch.WrongPatchIsNotInstalled | applypatch/applypatch.cpp:654-656 | when no patch gives the target, no run changes a partition, and none succeeds unless the target is there already |
| ApplyPatch.RunTouches | applypatch/applypatch.cpp:596-673 | a run changes no partition but the target, and that only if some patch gives bytes with the right hash; it touches no file but the backup and those deleted for space; a successful installation removes the backup |
| ApplyPatch.UnknownPatchIsRefused | applypatch/applypatch.cpp:601-616 | patches that start with neither "BSDIFF40" nor "IMGDIFF2" change nothing |
| ApplyPatch.BsdiffPatchProduces | applypatch/applypatch.cpp:638-645 | a bsdiff patch from a source to a target is recognised and gives the target |
| ApplyPatch.InPlaceRun | applypatch/applypatch.cpp:477-540 | the disk and the result of an undisturbed run that patches in place, byte for byte: done already, patched from the partition or from the backup, or failed with nothing changed |
| ApplyPatch.RecoverableIffSafe | applypatch/applypatch.cpp:477-540 | an undisturbed run succeeds if and only if the state is safe: the target is in place, a source is in the partition, or the backup is a source |
| ApplyPatch.RunKeepsSafeIff | applypatch/applypatch.cpp:596-673 | a run that fails or is cut off anywhere keeps a safe state safe, except exactly when the partition is unusable and the backup that the run resumed from is lost while it is saved again |
| ApplyPatch.UnsafeStays | applypatch/applypatch.cpp:523-537 | from an unsafe state no run changes anything |
| ApplyPatch.RecoversIff | applypatch/applypatch.cpp:455-476 | after any number of runs, each cut off or failing anywhere, an undisturbed run installs the target if and only if no run lost the backup it depended on |
| ApplyPatch.UnbrokenNeverLoses | applypatch/applypatch.cpp:618-626 | no backup is lost if no run that resumed from the cached copy is cut off or fails inside SaveFileContents |
| ApplyPatch.InPlaceSafe | applypatch/applypatch.cpp:87-94 | for one source patched in place, a state is safe exactly when the partition starts with the source or the target, or the backup is the source |
| ApplyPatch.ResumedSaveLoses | applypatch/applypatch.cpp:618-626 | the update is lost from every partition that holds only the source, when a first run is cut off while writing and a second while saving the backup again |
| ApplyPatch.BackupIsLost | applypatch/applypatch.cpp:618-626 | one such chain spelled out |
| ApplyPatchCode.LoadPartitionContents | applypatch/applypatch.cpp:97-185 | the loop that reads on from size to size finds the smallest matching prefix, or reports the failed read |
| ApplyPatchCode.SaveFileContents | applypatch/applypatch.cpp:189-212 | the backup is the data when it reports success; otherwise the result says what the file was left with, and nothing else has changed |
| ApplyPatchCode.WriteToPartition | applypatch/applypatch.cpp:218-344 | success means that the partition starts with the data and is unchanged after it, although writes may be partial or store other bytes; failure leaves a partition of the same size |
| ApplyPatchCode.MakeFreeSpaceOnCache | applypatch/freecache.cpp:114-149 | deletes neither the backup nor an open file; when no call fails, it succeeds if and only if there is room already or deleting the expendable file whose name comes first makes room, and then it deletes all of them; otherwise it stops after that file |
| ApplyPatchCode.GivesUpEarly | applypatch/freecache.cpp:140-148 | two files whose deletion would make room, while it stops after the first |
| ApplyPatchCode.FindExpendableFiles | applypatch/freecache.cpp:76-112 | all listed files but the backup and the open ones |
| ApplyPatchCode.GenerateTarget | applypatch/applypatch.cpp:596-673 | executes the steps of the protocol; when all system calls go well, without a failure |
| ApplyPatchCode.Applypatch | applypatch/applypatch.cpp:477-540 | every execution, whatever the system calls do, is a run of the protocol; when they all go well it is the undisturbed run |
| FuseSideload.FetchIsCoherent | fuse_sideload.cpp:228-276 | a successful fetch leaves the block whose hash is recorded; recorded hashes are never replaced; a failed provider keeps the cache coherent exactly when nothing was cached or the buffer is unchanged |
| FuseSideload.SessionIsPinned | fuse_sideload.cpp:278-341 | every successful reply of a session agrees with the blocks fixed by the recorded hashes at its end |
| FuseSideload.FirstReadConsistency | fuse_sideload.cpp:24-33 | any two successful replies of a session agree on every position both contain, if no failed fetch disturbs a cached block |
| FuseSideload.ConsistentIffQuiet | fuse_sideload.cpp:244-248 | exactly the sessions in which no failed fetch disturbs a cached block are safe: all replies agree, however the session is cut short and continued by a provider that does not fail; an unquiet one has a continuation with two replies that disagree |
| FuseSideload.DisturbedSession | fuse_sideload.cpp:244-248 | for every file of more than one block, a session of three reads whose first and last replies disagree |
| FuseSideload.HonestReadIsExact | fuse_sideload.cpp:302-335 | with an honest provider a read is the requested slice of the file extended with zeros, in one block, across two, or past the end |
| FuseSideload.RefinesFileIff | fuse_sideload.cpp:238-243 | all sessions with an honest provider read the plain file if and only if the last block starts below 4 GiB or is full |
| FuseSideloadCode.FuseData.FetchBlock | fuse_sideload.cpp:228-276 | the buffers, the current block and the hashes after fetch_block |
| FuseSideloadCode.FuseData.HandleRead | fuse_sideload.cpp:278-341 | the reply and the state after handle_read, with its 32-bit arithmetic |
| Sha1.Transform80 | libmincrypt/sha.c:38-86 | the 80-word code computes the compression function of section 6.1.2 of FIPS 180-4 |
| Sha1.Transform16 | digest/sha1.cpp:107-193 | the code with 16 words in place and rotated registers computes the same function |
| Sha1.Blk | digest/sha1.cpp:107-116 | the workspace always holds the last 16 words of the schedule, each at its index modulo 16 |
| Sha1.BothTransforms | digest/sha1.cpp:132-193 | both implementations agree on every state and block |
| BlockDigest.FoldAppend | digest/sha1.cpp:212-233 | folding the compression over whole blocks does not depend on where the message is cut |
| BlockDigest.CountCarries | digest/sha1.cpp:217-220 | the two-word bit count with its carry is the length in bits modulo 2^64 |
| BlockDigest.PaddedIs | digest/sha1.cpp:249-256 | a padded message is the message, a byte 0x80, as few zeros as make whole blocks of 64 bytes, and eight bytes of length |
| BlockDigest.LengthFields | libmincrypt/sha.c:123-135 | the eight length bytes have the value of the bit count, most significant first, and the other way round for MD5 |
| Sha1Digest.Context.Update | digest/sha1.cpp:212-233 | a context that has absorbed a message has absorbed the longer one |
| Sha1Digest.Context.Final | digest/sha1.cpp:238-262 | the digest of the absorbed message: padding, length and output of FIPS 180-4 |
| Sha1Digest.MincryptContext.Update | libmincrypt/sha.c:107-120 | the byte loop absorbs the data |
| Sha1Digest.MincryptContext.Final | libmincrypt/sha.c:123-146 | the same digest |
| Sha1Digest.HashPieces | libmincrypt/sha.c:149-155 | however a message is cut into updates, both contexts give the SHA-1 of the whole message |
| Sha1Example.DigestOfAbc | digest/sha1.cpp:132-262 | the example of section A.1 of FIPS 180-2: the SHA-1 of "abc", through all 80 rounds |
| Md5Digest.Context.Update | digest/md5.c:62-104 | a context that has absorbed a message has absorbed the longer one |
| Md5Digest.PaddedMessageIs | digest/md5.c:110-147 | the padded message byte by byte, with the number of bits modulo 2^64, least significant byte first |
| Md5Digest.Context.Final | digest/md5.c:110-147 | the state after the padded message of sections 3.1 to 3.4 of RFC 1321, padded in place |
| Md5Digest.HashPieces | digest/md5.c:62-147 | however a message is cut into updates, the result is the fold over the padded whole message |
| Crc32.ByteStep | boot_control/boot_control.cpp:80-82 | one step of the byte loop is eight steps of the bit-at-a-time definition |
| Crc32.Table.Crc | boot_control/boot_control.cpp:64-85 | the table-driven code equals the reflected CRC-32 with polynomial 0xEDB88320, taken bit by bit, on every byte string; it fills its table correctly, and a later call finds it filled and leaves it alone |
| Crc32.CrcOfParts | boot_control/boot_control.cpp:79-85 | the CRC of a longer message goes on from the CRC of its beginning, with both inversions |
| Crc32.CrcOfLetter | boot_control/boot_control.cpp:64-85 | the CRC of the letter a is 0xE8B7BE43 |
| ControlBlock.BootloaderMessage.Update | bootloader_message/bootloader_message.cpp:177-193 | the recovery field holds "recovery" and one line for each option, cut off to fit, and the command field asks for recovery |
| ControlBlock.WrittenIs | bootloader_message/bootloader_message.cpp:177-193 | the field character by character: the word recovery and the options, each after a newline, and a last newline, as far as 767 characters hold them, and NULs |
| ControlBlock.BootloaderMessage.Arguments | recovery.cpp:341-354 | the options that the field holds |
| ControlBlock.ParseReads | recovery.cpp:341-354 | a field that holds the word recovery and then lines, up to a NUL or its last character, gives its non-empty lines |
| ControlBlock.ParseNeedsHeader | recovery.cpp:345-353 | any other field gives no options |
| ControlBlock.RoundTripIff | recovery.cpp:341-354 | for non-empty options without newline and NUL, parsing what was written gives them back if and only if the text is at most 768 characters long: only the last newline may be cut off |
| ControlBlock.WriteIsStable | recovery.cpp:372-377 | writing back what was parsed from a written field leaves the field unchanged, truncated or not |
| ControlBlock.ParseIsStable | recovery.cpp:341-377 | whatever a field holds, its options survive being written back and parsed again |
| RetryProtocol.BootKeepsUpdate | recovery.cpp:1564-1620 | a boot that does not finish, cut off anywhere, keeps the package, never lowers the counter, and raises it by one when it reboots to retry |
| RetryProtocol.UpdateIsKept | recovery.cpp:1594-1612 | the same over any number of boots; there are at most RETRY_LIMIT reboots to retry |
| RetryProtocol.FinishedIsClean | recovery.cpp:489-516 | a boot that finishes leaves an empty control block and no command file: the next boot reads no option, no package and no count |
| RetryProtocol.OutcomeIs | recovery.cpp:1564-1620 | when a boot finishes, when it reboots to retry and when it is cut off, as three if-and-only-ifs over the options and what happens, with the limit of 4 written out |
| RetryProtocol.NextBootReads | recovery.cpp:1564-1620 | what the next boot reads after one that did not finish: the same options, or, from the start of the attempt on, args[0], the options without the counter, and the counter raised by one |
| RetryProtocol.LastOptionWins | recovery.cpp:1442-1455 | the last package and the last counter among the options count; others change neither |
| RetryProtocol.WithoutCountSplits | recovery.cpp:1346-1360 | dropping the counter works option by option and keeps the order of the others |
| RetryProtocol.RetryIsRoomy | recovery.cpp:1346-1360 | set_retry_bootloader_message adds args[0] once more each time; if there is room for the retries that are left, there still is after one of them |
| RetryProtocol.CountSurvivesIff | recovery.cpp:1346-1360 | the counter is read back if and only if the text fits; otherwise the next boot reads zero |
| RetryCode.Recovery.SetRetry | recovery.cpp:1346-1360 | the field after set_retry_bootloader_message |
| RetryCode.Recovery.Start | recovery.cpp:1564-1620 | the control block and the outcome of a boot, with the power lost at any of its steps |
| Asn1.DecodesLength | asn1_decoder.cpp:48-72 | every definite length in the short form, or in the long form with up to seven octets (section 8.1.3 of X.690), is decoded to its value |
| Asn1.DecodedIsLength | asn1_decoder.cpp:48-72 | whatever is decoded was written in one of these forms, or as a lone 0x80, which is read as zero; everything else, with length fields of eight or more octets, is refused |
| Asn1.FindsSignatureOctets | verifier.cpp:40-113 | for every encoding of the documented SignedData shape, with any length forms and anything after the parts that matter, the contents of the fifth signer field are returned if it is an octet string and not empty, and nothing if it is anything else |
| Asn1.SignatureIff | verifier.cpp:40-113 | octets are returned if and only if they are not empty and are the contents of the fifth signer field, an octet string, of a document of that shape |
| Asn1.Pkcs7RoundTrip | verifier.cpp:40-113 | read_pkcs7 applied to the DER encoding of any signed message returns its signature, unless that is empty |
| Verifier.Asn1Context.ReadLength | asn1_decoder.cpp:48-72 | decode_length consumes exactly the length octets and never leaves the buffer |
| Verifier.Asn1Context.Enter | asn1_decoder.cpp:77-128 | a sub-context is a slice of the original buffer inside its parent: the contents of the element |
| Verifier.Asn1Context.ConstructedSkipAll | asn1_decoder.cpp:91-102 | skips all context-specific constructed elements, and fails if nothing follows them |
| Verifier.Asn1Context.OctetStringGet | asn1_decoder.cpp:149-158 | a non-empty slice of the original buffer inside the context |
| Verifier.ReadSignature | verifier.cpp:64-113 | the cursors compute the signature octets of the specification on every input |
| Verifier.SelectedIsSigned | verifier.cpp:139-200 | whatever passes the footer checks is an archive with comment text, signature and footer, and has one end-of-central-directory marker |
| Verifier.SignedIsSelected | verifier.cpp:139-200 | a signed file is accepted if and only if the marker does not occur again, and then its parts are the ones selected |
| Verifier.SignedPart | verifier.cpp:123-250 | what is hashed is the archive up to the comment size, and the signature is read from the signature part; there is a result only for a file that is a signed archive with one marker |
| DsaSig.TrimToP256Bytes | libmincrypt/dsa_sig.c:35-49 | succeeds exactly for values from 1 to 2^256 - 1, and keeps the value |
| DsaSig.DsaSigUnpack | libmincrypt/dsa_sig.c:54-126 | computes the two integers delimited by the header octets, if they are in range; the byte after the signature is needed only when the second one is zero |
| DsaSig.AcceptedIff | libmincrypt/dsa_sig.c:54-126 | a signature is accepted if and only if it consists of exactly two integers in range, and then their values are returned |
| DsaSig.UnpacksDer | libmincrypt/dsa_sig.c:54-126 | unpacking the DER encoding of r and s (section 2.2.3 of RFC 3279) yields r and s, for all 1 <= r, s < 2^256 |
| Settings.FormatTwice | DataBase.cpp:61-77 | encryption and decryption are inverse to each other |
| Settings.ReadsRecord | DataBase.cpp:80-150 | a written value is read back, whatever follows it; an empty one comes back as "o" |
| Settings.LoadOverrides | DataBase.cpp:178-254 | loading a written file gives the old contents overridden by the map, for every order in which the map was iterated |
| Settings.RoundTripIff | DataBase.cpp:366-420 | an empty database loads back the map that was written if and only if it holds no empty key or value |
| Settings.DataBase.Serialize | DataBase.cpp:366-420 | the file of version, size and variables in iteration order |
| Settings.DataBase.Unserialize | DataBase.cpp:178-254 | the variables after loading any file, and whether it reports success |
| Settings.LoadsRecords | DataBase.cpp:178-254 | a file of records with any version and size is refused, and nothing is loaded, exactly when one of the two is not numeric or the version is checked and is not "2"; otherwise every variable is set, in order |
| Settings.OtherVersionIsRefused | DataBase.cpp:203-218 | a first value that is not numeric, or is another version when that is checked, is refused whatever follows it, and the variables stay as they are |
| Settings.ShortFileLoadsNothing | DataBase.cpp:196-233 | a file that ends before its size loads nothing |
| Settings.DataBase.Equals | DataBase.cpp:488-499 | true exactly when both maps are equal |

## Left out

- bsdiff, bspatch, inflate, deflate and zip extraction are function values with stated laws, not algorithms; a z_stream is represented by its parameters, what it was fed, what it emitted and what a Z_FINISH left over. The laws say that a finished stream does not depend on how its data was cut into calls; for stored blocks (level 0), which imgdiff never writes, zlib does not promise that.
- inflate: the loops that grow its output buffer are one call that gives the inflated data and the bytes consumed.
- Zip archives: iteration and sorting by offset are left to the caller; the model starts from the entries in the order of their offsets, none reaching into the next.
- ZipMode.ZipModeRebuildsIff: the source file as a whole must not be empty or happen to be a deflate stream that inflates to its own length; the source would then stand in for a lost deflate source.
- ImgPatch.WrittenFileMeansTarget: fewer than 2^31 chunks, raw chunks below 2^31 bytes, and files below 2^63 bytes, so that the counts and sizes fit their fields. The end-to-end theorems ask the same of the patch chunks they are about; a normal chunk of 2 GiB or more that is stored raw has its length cut off.
- ImageMode.Imgdiff: no gzip member of either file has its footer outside the file, and bonus data is below 4 GiB.
- ZipSplitUse.FreeSourceIsUsed: sources that share a block with another source or with the directory may be trimmed or skipped (`ZipSplit.TrimsTheEnds`); which of two that compete gets a block is left to the recursive split.
- ZipMembers.EntryStaysIff: entries that compete for a source are left to the order of the loop (`ZipMode.SharedSourceIsLost`).
- The text of the split information file and of range sets; the model keeps its numbers and ranges.
- Failures of writes to the output files of imgdiff, and of temporary files.
- ImageChunks.TryReconstruction: comparing past the end of the file counts as a mismatch.
- ApplyPatch.RecoversIff: SHA-1 is a function without collisions, every listed source is patched to the target, the listed sizes fit the partition, and whatever the name of the target partition lists is the target or, when patching in place, a source with a patch.
- ApplyPatchCode.SaveFileContents: a write to a file that reports success holds the bytes it was given; only partition writes may store other bytes. No write call returns zero.
- ApplyPatchCode.MakeFreeSpaceOnCache: the exact condition is stated for deletions that do not fail and never cost space; the measuring of free space is a function of the files left.
- The parsing of partition names and of hexadecimal digests, `applypatch_check`, `applypatch_flash` and the command line tools.
- FuseSideload.FirstReadConsistency: SHA-256 has no collisions on blocks and is never all zero; requests are at most one block long and do not reach block number 2^32 - 1, which stands for no block.
- FUSE requests other than reads, and the mounting itself.
- Sha1Digest.Context.Update: at most 2^32 - 64 bytes at a time with a 32-bit unsigned long; beyond that its 32-bit sums wrap around. The wiping of the context after use is not modelled.
- Md5Digest.Context.Final: the transformation of a block is an arbitrary function, and the copying of its state into the digest bytes is left out.
- RetryProtocol.UpdateIsKept: a write of the control block is atomic and does not fail; retry counts are decimal; option words other than the package and the counter are carried along unparsed.
- Device input and output behind the misc partition, the other fields of the control block, wipes, sideloading and the user interface of recovery.
- Asn1.FindsSignatureOctets: lengths of up to seven octets; longer length fields are refused by the code (`Asn1.DecodedIsLength`).
- The comparison of the signature with the keys, RSA and ECDSA arithmetic, and key files.
- DsaSig.TrimToP256Bytes: the byte after a number that is zero must be readable, because the loop looks at it before it looks at the length; the result does not depend on it.
- DsaSig.DsaSigUnpack: the same for a signature whose second integer is zero.
- Settings: allocation failures for huge length fields, partial writes, and the property file format.
