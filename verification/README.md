# Verified models of the HDiffPatch wrappers

HDiffPatch makes and applies binary patches. This project models the parts around its core library
that carry the hardest promises, and proves those promises for all inputs, runs and schedules.

1. **VCDIFF writer and patcher** (RFC 3284). A small compiler and its interpreter: covers are cut to
   a length limit, the new data is cut into target windows, an instruction coder with one code of
   lookahead fuses pairs into one table byte, an address cache picks the cheapest of nine modes in
   wrapping 64-bit arithmetic, and a table-driven decoder with buffered streams and a ring cache of
   the source window undoes it. The writer (`VcdiffWriter`, `VcEncoder`) and the patcher (`VcPatch`,
   `VcPatchFile`, `OutCache`, `StreamClip`, `SrcCache`) are imperative and are proved against
   functions; `VcdiffWriter.CreateVcdiff` states the end-to-end theorem about the writer's output.
   What stands in a file, and what a file means that the writer never makes, is told without those
   functions in `FileLayout`, `VcdiffLayout`, `WindowContents`, `TableCodes`, `AddrHistory` and `CoverPieces`.
2. **Source window cache** (`SrcCache`): a ring that is re-aimed at overlapping windows, also while
   the stream behind it grows.
3. **Parallel block compressor** (`CompressJob`, `Parallel*`): atomic steps of worker threads; every
   schedule. `ParallelOutput` tells the output from the input alone.
4. **Channels** (`Channel`, `ChannelWaiting`): the ring buffer and the deque as classes of any capacity, and the
   waiting at two condition variables as a step relation; every run. `ChannelCalls` says what each
   call does to the waiting threads.
5. **bsdiff writer and patcher** (`Bsdiff*`, `BsPatch`): three streams or one interlaced stream,
   produced lazily; `BsdiffLayout` tells their bytes.
6. **Tools**: the self-extracting archive writer (`Sfx`), the manifest printer and parser (`Manifest`,
   `ManifestText`, `Decimal`, `HexText`) and the ignore matcher (`IgnoreMatch`, and over the names of a
   path `IgnoreNames`).

How to read the proofs: a module has a functional account of what the code computes, the lemmas about
that account, and methods whose postconditions equate the new state with it. Lengths and positions
are natural numbers; where the C code relies on wrapping (addresses, old positions, the sign and
magnitude form) or on a refused overflow (packed integers, decimal numbers), it is written out with
`u64` and `Wrap64`. Failure is `None` or `ok == false`, and `ok == r.Some?` in a method's contract
means that it fails exactly when its account does. Where writer and reader share an account, a separate
lemma says what it is without it (layouts, histories, names), so that not only their agreement is proved.

Where the code turned out to differ from what one expects of it, the exact condition is stated:

- A VCDIFF file of empty new data is written but refused when it is read, and that is the only
  case (`VcdiffFile.EndToEnd`; `VcdiffFile.HeaderReadBack` gives the cause: the check at
  vcdiff_wrapper/vcpatch_wrapper.c:304-310 needs at least 6 bytes behind the file header).
- Cutting covers needs no bound on their length: the last piece never underflows
  (`ClipCovers.PieceBounds`).
- The sign and magnitude form loses exactly 2^63 (`BsdiffCodes.SignedOfSignMagnitude`).
- A three-stream bsdiff file is refused exactly when one of its packed streams is empty, an
  interlaced one exactly when its packed stream has fewer than 8 bytes (`BsdiffFile.FileRoundTrip`).
- The offset and size in an archive are read back except when one of them is all ones
  (`Sfx.StampReadBack`).
- A path survives the separator mapping exactly when the platform's separator is `/` or the path
  holds no `/` (`Manifest.SeparatorRoundTrip`).

## Model

| member | source | states |
|---|---|---|
| PackedUInt.UnpackPack | libHDiffPatch/HPatch/patch.c:105-133 | every 64-bit value, packed and followed by anything, is read back with exactly its own bytes consumed (section 2 of RFC 3284) |
| PackedUInt.PackLength | libHDiffPatch/HPatch/patch.c:94-103 | a packed value takes 1 to 10 bytes |
| PackedUInt.PackDigits | libHDiffPatch/HPatch/patch.c:63-92 | the bytes are the digits of the value to the base 128, the highest first, without leading zeros, the high bit set in all but the last |
| PackedUInt.PackExample | libHDiffPatch/HPatch/patch.c:63-92 | the example of section 2 of RFC 3284: 123456789 is written as BA EF 9A 15 |
| PackedUInt.UnpackPrefix | libHDiffPatch/HPatch/patch.c:499-511 | looking at only the first 11 bytes of the rest gives the same value or the same failure as looking at all of it |
| PackedUInt.PackUInt | libHDiffPatch/HPatch/patch.c:63-92 | the loop that fills a buffer from its end yields the base-128 form |
| PackedUInt.UnpackCode | libHDiffPatch/HPatch/patch.c:105-133 | the reading loop fails on truncation and on overflow past 64 bits exactly when the format says so, and else gives value and bytes used |
| CodeTable.TableIsStandard | vcdiff_wrapper/vcpatch_wrapper.c:212-245 | each of the 256 entries is the one that the rules of section 5.6 of RFC 3284 assign to its index |
| AddrCache.PickInverts | vcdiff_wrapper/vcdiff_wrapper.cpp:243-266 | whatever mode and sub-address the encoder picks, decoding them against the same cache and position gives the address back modulo 2^64, for SELF, HERE (kept as twice the address minus here), NEAR and SAME |
| AddrCache.PickIsBest | vcdiff_wrapper/vcdiff_wrapper.cpp:243-266 | the pick is the first mode, in the order tried, whose sub-address is below 128; else SAME when it hits; else the first least of the six sub-addresses |
| AddrCache.UpdateAddr | vcdiff_wrapper/vcpatch_code_table.h:71-73 | the macro changes both arrays and the index to the updated cache, and nothing in front of the near slots; AddrHistory.CacheHolds says what an updated cache holds |
| AddrHistory.CacheHolds | vcdiff_wrapper/vcpatch_code_table.h:71-73 | after any list of addresses from the empty cache: each near slot holds the latest address whose number has the slot as remainder modulo 4, each same entry the latest address with that remainder modulo 768, 0 when there is none, and the index is their number modulo 2^64 |
| AddrHistory.DecodeMeans | vcdiff_wrapper/vcpatch_wrapper.c:475-499 | the address a decoder finds for each of the nine modes, told from the addresses of the COPYs before |
| AddrHistory.CopySeen | vcdiff_wrapper/vcpatch_wrapper.c:475-517 | a COPY copies from the address that its mode and encoded value mean behind the COPYs before, and that address joins them |
| AddrHistory.RunSeen | vcdiff_wrapper/vcpatch_wrapper.c:441-521 | in every run of operations the cache is that of the addresses seen, one for each COPY and none for ADD and RUN |
| AddrHistory.PickSeen | vcdiff_wrapper/vcdiff_wrapper.cpp:243-266 | the encoder's choice told from the addresses before: the first candidate below 128; without one a SAME entry exactly when the latest address with the same remainder is the same; else the first of the least candidates |
| InstCoder.CoderWritesSections | vcdiff_wrapper/vcdiff_wrapper.cpp:268-322 | running the one-code lookahead coder over any list of codes and flushing leaves nothing pending and exactly the instruction and address sections of that list |
| InstCoder.ParseInstOf | vcdiff_wrapper/vcpatch_wrapper.c:441-463 | the instruction section of any list of positive ADD and COPY codes, read through the table with explicit sizes, is that list, in order, fused pairs included |
| TableCodes.FusedIffTable | vcdiff_wrapper/vcdiff_wrapper.cpp:271-303 | two codes become one byte if and only if the literal table has an entry for the pair, and the byte is its index |
| TableCodes.SingleIffTable | vcdiff_wrapper/vcdiff_wrapper.cpp:304-318 | a code alone is one byte if and only if the literal table has it with its size; else the index of the entry without a size, and the packed size |
| TableCodes.SectionSteps | vcdiff_wrapper/vcdiff_wrapper.cpp:268-322 | the instruction section begins with the index of the pair of the first two codes when the literal table has it, else with the first code alone, and goes on so |
| TableCodes.AddressBytes | vcdiff_wrapper/vcdiff_wrapper.cpp:233-238 | an address is one byte in the SAME modes and a packed integer in the others |
| ClipCovers.PieceBounds | vcdiff_wrapper/vcdiff_wrapper.cpp:486-488 | for every length above the limit: at least two pieces, piece length in 1..limit, and (count-1) pieces are shorter than the whole, so that the last piece is positive and fits |
| ClipCovers.PiecesTile | vcdiff_wrapper/vcdiff_wrapper.cpp:486-497 | the pieces of a cover have lengths in 1..limit and tile it in order in old and new data |
| ClipCovers.FlatIsGood | vcdiff_wrapper/vcdiff_wrapper.cpp:480-504 | the cut list is sorted, does not overlap, matches, and has lengths up to the limit |
| ClipCovers.MergeIsFlat | vcdiff_wrapper/vcdiff_wrapper.cpp:500-503 | merging the shortened covers with the pieces appended behind them by new position gives the pieces cover by cover |
| ClipCovers.Clip | vcdiff_wrapper/vcdiff_wrapper.cpp:480-504 | the loop that shortens covers in place, appends the other pieces and merges returns the cut list |
| ClipCovers.PushTail | vcdiff_wrapper/vcdiff_wrapper.cpp:485-498 | the inner loop with its running remainder appends all pieces but the first, and the cover becomes the first |
| CoverPieces.ClipKeepsCopies | vcdiff_wrapper/vcdiff_wrapper.cpp:480-504 | clipping keeps exactly the copies: a new byte is copied from an old byte by the cut list if and only if it is by the covers |
| CoverPieces.PieceShape | vcdiff_wrapper/vcdiff_wrapper.cpp:485-498 | a cover up to the limit stays; a longer one becomes the least number of pieces the limit allows, at their places, all but the last of the least length with which that number is enough |
| CoverPieces.ClipIsByCover | vcdiff_wrapper/vcdiff_wrapper.cpp:480-504 | the pieces stand in the order of the covers, and each cover is cut on its own |
| TargetWindow.WindowEndIsGood | vcdiff_wrapper/vcdiff_wrapper.cpp:93-133 | a window ends within its limit and the data, no cover straddles its end, the covers taken are exactly those that end inside, and the rest is ordered from the window's end |
| TargetWindow.WindowIsLargest | vcdiff_wrapper/vcdiff_wrapper.cpp:93-133 | a window stops short of its limit only at the end of the data or in front of a cover that would pass the limit |
| TargetWindow.WindowProgress | vcdiff_wrapper/vcdiff_wrapper.cpp:112-129 | with covers up to the limit every window is longer than 0, so that the window loop ends |
| TargetWindow.GetTargetWindow | vcdiff_wrapper/vcdiff_wrapper.cpp:93-133 | the loop with its running position and length returns that window end and number of covers |
| TargetWindow.GetSrcWindow | vcdiff_wrapper/vcdiff_wrapper.cpp:72-91 | the source window is the least range that holds all old ranges, and empty without covers |
| WindowCodes.CodesFillWindow | vcdiff_wrapper/vcdiff_wrapper.cpp:174-219 | with a window end that no cover straddles, the sizes of the codes of a window sum to its length |
| WindowContents.CodesWriteCovers | vcdiff_wrapper/vcdiff_wrapper.cpp:174-219 | the codes of a window are one COPY for each of its covers, of its length, from its distance to the source window's start and in the form that the choice above gives, and one ADD for each gap; nothing else |
| WindowContents.GapIsUncovered | libHDiffPatch/HDiff/private_diff/limit_mem_diff/stream_serialize.cpp:198-265 | the data section is, byte by byte, the new bytes of the window that no cover covers |
| VcEncoder.Encoder.constructor | vcdiff_wrapper/vcdiff_wrapper.cpp:164-173 | an encoder starts with empty caches, sections and lookahead |
| VcEncoder.Encoder.GetMode | vcdiff_wrapper/vcdiff_wrapper.cpp:243-266 | the loop over the shared SELF, HERE and near array returns the pick and leaves the cache as it was |
| VcEncoder.Encoder.EmitPair | vcdiff_wrapper/vcdiff_wrapper.cpp:271-303 | a pending and a current code are written as one byte exactly when they can be fused, else nothing changes; TableCodes.FusedIffTable says when that is |
| VcEncoder.Encoder.EmitSingle | vcdiff_wrapper/vcdiff_wrapper.cpp:304-318 | the pending code is written alone, with an explicit size exactly when the table has none |
| VcEncoder.Encoder.EmitCode | vcdiff_wrapper/vcdiff_wrapper.cpp:268-322 | one call changes sections and lookahead as one push of the coder, or a flush when there is no current code |
| VcEncoder.Encoder.EmitCopy | vcdiff_wrapper/vcdiff_wrapper.cpp:199-213 | a cover becomes the COPY of its picked mode, and the cache is updated with its address |
| VcEncoder.Encoder.Encode | vcdiff_wrapper/vcdiff_wrapper.cpp:174-219 | the loop over the covers of a window leaves exactly the two sections of that window's codes, and nothing pending |
| VcdiffWriter.NewDataDiff | libHDiffPatch/HDiff/private_diff/limit_mem_diff/stream_serialize.cpp:198-265 | the data section is the new bytes of the window that are under no cover, in order |
| VcdiffWriter.WriteDelta | vcdiff_wrapper/vcdiff_wrapper.cpp:432-446 | the delta length written in front counts exactly what follows |
| VcdiffLayout.WindowLayout | vcdiff_wrapper/vcdiff_wrapper.cpp:413-446 | a written window in front of anything, read number by number: indicator 1 with length and position of the source window, or 0; the exact length of what follows; target length, a 0 byte, the lengths of the sections; then the bytes under no cover, the instructions and the addresses of codes that write the covers |
| VcdiffLayout.FileHead | vcdiff_wrapper/vcdiff_wrapper.cpp:380-400 | the 23 bytes of the file header, with the tag character by character |
| VcdiffWriter.WriteWindow | vcdiff_wrapper/vcdiff_wrapper.cpp:413-446 | one round of the window loop writes the bytes of that window |
| VcdiffWriter.SerializeVcdiff | vcdiff_wrapper/vcdiff_wrapper.cpp:374-478 | header and window loop write the file of the covers and new data; the two assertions behind the loop (vcdiff_wrapper/vcdiff_wrapper.cpp:476-477) are proved in its body |
| WindowTiling.TargetsTile | vcdiff_wrapper/vcdiff_wrapper.cpp:409-477 | the windows of the whole loop have lengths in 1..max and follow each other from 0 to the size of the new data; their covers, joined, are all covers in order, and each lies wholly in its window |
| WindowTiling.OneWindow | vcdiff_wrapper/vcdiff_wrapper.cpp:409-477 | a cover of one window touches no other window |
| WindowTiling.HeadsAreTiling | vcdiff_wrapper/vcdiff_wrapper.cpp:409-477 | the window heads read from the written file are, one by one, the source length and the window lengths of that tiling |
| FileLayout.WrittenWindows | vcdiff_wrapper/vcdiff_wrapper.cpp:409-477 | what the window loop writes is, one after the other, a window for each part of that tiling: with its lengths, one COPY for each cover of the part and one ADD for each gap, and the bytes under no cover of it |
| VcdiffWriter.CreateVcdiff | vcdiff_wrapper/vcdiff_wrapper.cpp:506-530 | the file is that of the clipped covers with their least source window, and the patcher rebuilds exactly the new data from it, for every old data and every sorted, disjoint, matching cover list; only empty new data is refused |
| VcDecoder.FastCopyIsByteCopy | vcdiff_wrapper/vcpatch_wrapper.c:501-517 | for every address before the current position, copying a part from the source and the rest from the output itself equals the byte by byte copy of section 3 of RFC 3284, across the border and overlapping itself |
| VcDecoder.FastCopyFails | vcdiff_wrapper/vcpatch_wrapper.c:501-517 | a COPY fails exactly when its address is not before the current position |
| VcDecoder.Loop | vcdiff_wrapper/vcpatch_wrapper.c:433-521 | an accepted window appends exactly targetLen bytes to the output, whatever bytes were read, and keeps what was there |
| WindowRoundTrip.LoopRunsOps | vcdiff_wrapper/vcpatch_wrapper.c:441-521 | the decoder that reads table entries as it goes does what executing the parsed list of operations does |
| WindowRoundTrip.ExecCodes | vcdiff_wrapper/vcpatch_wrapper.c:464-517 | executing the codes of a window from the encoder's cache state appends the new data of the window and uses up data and addresses, with both caches in lock step |
| VcdiffRoundTrip.NeverInterleaved | vcdiff_wrapper/vcpatch_wrapper.c:862-885 | data and address section of a written window are never both empty, so that it is not taken for an interleaved one |
| VcdiffRoundTrip.SectionsDecode | vcdiff_wrapper/vcpatch_wrapper.c:433-521 | the three sections of a window decode to the output so far followed by the new data of the window |
| VcdiffRoundTrip.SectionBounds | vcdiff_wrapper/vcdiff_wrapper.cpp:432-440 | the sections of a window are short enough that the delta length stays below 2^64 |
| VcdiffRoundTrip.WindowDecodes | vcdiff_wrapper/vcpatch_wrapper.c:775-908 | the bytes of a window, followed by anything, decode to its new data and leave what follows |
| VcdiffRoundTrip.WindowsDecode | vcdiff_wrapper/vcdiff_wrapper.cpp:412-477 | the windows of a writer, from any position on, decode to all of the new data |
| VcdiffFile.HeaderReadBack | vcdiff_wrapper/vcpatch_wrapper.c:268-330 | the written file header is read back with its windows if and only if at least 6 bytes follow it |
| VcdiffFile.SizesAgree | vcdiff_wrapper/vcpatch_wrapper.c:550-629 | whenever the windows decode, the scan over the window heads succeeds and its sum is the length of the decoded data |
| VcdiffFile.SizesAreMaxima | vcdiff_wrapper/vcpatch_wrapper.c:550-629 | the scan's two other results are the largest source window and the largest target window |
| VcdiffFile.EndToEnd | vcdiff_wrapper/vcdiff_wrapper.cpp:374-478 | cut, serialize, scan sizes and decode: the patch is the new data, for all old data, new data and sorted, disjoint, matching covers; exactly empty new data is refused |
| VcdiffLayout.HeaderMeans | vcdiff_wrapper/vcpatch_wrapper.c:268-330 | every file header, read: version 0 or 'S', a compressor byte and a tag of any length when announced; refused for any other version, for a code table and by the size check, and for nothing else |
| VcdiffLayout.WindowMeans | vcdiff_wrapper/vcpatch_wrapper.c:775-908 | every window that can be read, also those never written: its numbers, a checksum in four bytes or packed in 32 bits that is skipped, and COPYs from the old data for the indicator 1 and from the output so far for 2; refused when the source window is not inside |
| VcdiffLayout.UnknownIndicator | vcdiff_wrapper/vcpatch_wrapper.c:787-829 | a window whose indicator is none of 0, 1, 2, 4, 5 and 6 is refused |
| VcdiffLayout.WrongLength | vcdiff_wrapper/vcpatch_wrapper.c:830-870 | a window whose delta length is not that of its lengths, checksum and sections is refused |
| VcdiffLayout.IndexMeans | vcdiff_wrapper/vcpatch_wrapper.c:441-463 | an instruction byte is an index into the literal table, and a size that the table leaves open is the packed integer behind it |
| VcdiffLayout.RunMeans | vcdiff_wrapper/vcpatch_wrapper.c:464-474 | a RUN takes one byte, from the data section or in an interleaved window from the instruction section, and appends it size times; refused without room or byte |
| VcdiffLayout.RunWindow | vcdiff_wrapper/vcpatch_wrapper.c:433-521 | the bytes of a window with one RUN decode to that byte, repeated; VcdiffLayout.InterlacedRun says the same of an interleaved window |
| VcdiffLayout.OutputWindow | vcdiff_wrapper/vcpatch_wrapper.c:787-829 | the bytes of a window with one COPY from earlier output decode to that part of the output, whatever the old data is |
| StreamClip.Clip.UpdateCache | libHDiffPatch/HPatch/patch.c:461-478 | sliding the cached bytes to the front and reading behind them changes no byte that is left to read, and ends with a full cache or a used-up stream |
| StreamClip.Clip.ReadData | libHDiffPatch/HPatch/patch_private.h:107-123 | reading fails exactly when fewer bytes are left or the cache is too small, and else takes the next bytes |
| StreamClip.Clip.UnpackUInt | libHDiffPatch/HPatch/patch.c:499-511 | reading a packed integer through the cache is reading it from all the bytes left |
| OutCache.OutStream.Flush | libHDiffPatch/HPatch/patch.c:601-609 | the contents stay, and all of them are written out |
| OutCache.OutStream.Write | libHDiffPatch/HPatch/patch.c:611-630 | the data is appended to what was written and cached |
| OutCache.OutStream.FillRun | libHDiffPatch/HPatch/patch.c:632-648 | a run of one value is appended |
| OutCache.OutStream.CopyFromStream | libHDiffPatch/HPatch/patch.c:650-670 | the source bytes are appended piece by piece, also when the source is the written output and grows by the cache being flushed |
| OutCache.CopyFromClip | libHDiffPatch/HPatch/patch.c:672-684 | the next bytes of a buffered reader are appended; it fails exactly when too few are left |
| OutCache.OutStream.CopyFromSelf | libHDiffPatch/HPatch/patch.c:686-754 | the copy through the cache, whole caches and the written stream equals copying byte by byte from `ahead` behind the end, overlap included; it fails exactly when `ahead` is 0 or too large |
| VcPatch.CopyBytes | vcdiff_wrapper/vcpatch_wrapper.c:501-517 | the two-part copy on the buffered output is the fast copy, and fails with it |
| VcPatch.CopyCode | vcdiff_wrapper/vcpatch_wrapper.c:475-517 | reading the address, decoding it, updating the caches and copying is one COPY of the interpreter |
| VcPatch.AddOrRun | vcdiff_wrapper/vcpatch_wrapper.c:464-474 | ADD and RUN on the buffered streams are the interpreter's |
| VcPatch.VcpatchDelta | vcdiff_wrapper/vcpatch_wrapper.c:433-521 | on buffered readers and output with in-place caches, the loop succeeds exactly when the interpreter does and outputs the same bytes; from one interleaved reader or from three |
| SrcCache.TurnKeepsBytes | vcdiff_wrapper/vcpatch_wrapper.c:644-653 | after turning the ring, each kept byte is found at its new index in its old slot, and the offset stays in 0..size |
| SrcCache.Cache.UpdateByOffset | vcdiff_wrapper/vcpatch_wrapper.c:654-674 | a range of the ring, wrapped or not, is filled from the source and no other index changes |
| SrcCache.Cache.Reuse | vcdiff_wrapper/vcpatch_wrapper.c:724-752 | re-aiming at an overlapping window, forward or backward, keeps the common bytes and loads the others |
| SrcCache.Cache.Update | vcdiff_wrapper/vcpatch_wrapper.c:717-760 | after any update the ring holds exactly the new window of the stream, whatever it held before |
| SrcCache.Cache.HoldsWhenGrown | vcdiff_wrapper/vcpatch_wrapper.c:717-760 | what the ring holds stays right when bytes are appended to the stream, as for a window of the target written so far |
| SrcCache.Cache.Read | vcdiff_wrapper/vcpatch_wrapper.c:676-697 | a read at p of n bytes returns those bytes of the source, wrapped or not |
| VcPatchFile.SameLoop | vcdiff_wrapper/vcpatch_wrapper.c:844-858 | decoding against the cached source window gives the same as decoding against the whole source |
| VcPatchFile.DivideCache | vcdiff_wrapper/vcpatch_wrapper.c:859-875 | the memory given to output and readers does not exceed what there is and suffices for packed integers |
| VcPatchFile.ReadHead | vcdiff_wrapper/vcpatch_wrapper.c:792-844 | the buffered reader finds the window's head, checks and sections as the format has them, or fails with it |
| VcPatchFile.CacheSource | vcdiff_wrapper/vcpatch_wrapper.c:845-858 | the source window read through the ring is that range of the old data or of the target so far |
| VcPatchFile.VcpatchWindow | vcdiff_wrapper/vcpatch_wrapper.c:763-908 | the window loop succeeds exactly when the format's decoding does and the result fills an output of fixed size, with the same data |
| VcPatchFile.GetVcDiffInfo | vcdiff_wrapper/vcpatch_wrapper.c:268-330 | reads the file header through a buffered reader as the format has it |
| VcPatchFile.GetWindowSizes | vcdiff_wrapper/vcpatch_wrapper.c:550-629 | scans the window heads as the format has them |
| VcPatchFile.VcpatchWithCache | vcdiff_wrapper/vcpatch_wrapper.c:911-950 | with any memory size a success is the right result and fills an output of fixed size, and with enough memory for four packed integers it fails only if the patch does or the size differs |
| CompressJob.BlockBounds | compress_parallel.cpp:105-110 | block i begins at i times the block size inside the input, all blocks but the last are full, and the last one ends the input |
| CompressJob.NextDictIsRight | compress_parallel.cpp:115-121 | rolling the dictionary over a full block gives the last bytes of the input before the next block |
| ParallelCompress.InitInv | compress_parallel.cpp:155-199 | the set-up starts in the invariant, with all buffers on the channel |
| ParallelCompress.StepKeepsCount | compress_parallel.cpp:88-151 | every step keeps: each buffer is in exactly one place, and each block read and not yet written is held by exactly one worker or on the list |
| ParallelCompress.StepKeepsData | compress_parallel.cpp:88-151 | every step keeps: dictionaries, blocks and codes in flight are those of their index, and the output is the first blocks in order |
| ParallelCompress.StepKeepsLocks | compress_parallel.cpp:130-148 | every step keeps: one writer at most, a sorted list, and no block on it that could be written when nobody writes |
| ParallelCompress.StepKeepsInv | compress_parallel.cpp:88-151 | every step of every worker keeps all three |
| ParallelRuns.NoDeadlock | compress_parallel.cpp:88-164 | in every reachable state where no worker can move, all have ended: since there are more buffers than workers, they are never all waiting for one |
| ParallelRuns.EndIsComplete | compress_parallel.cpp:137-147 | when all workers have ended, all blocks are written |
| ParallelRuns.StepDecreases | compress_parallel.cpp:93-150 | every step uses up a finite budget, so that every schedule ends |
| ParallelRuns.AnySchedule | compress_parallel.cpp:88-199 | under every schedule the output is always the compressed blocks in order, each made from its own dictionary; schedules are bounded in length; a schedule that cannot go on has written everything |
| ParallelOutput.AnyScheduleOutput | compress_parallel.cpp:100-148 | under every schedule the output is the first pieces joined, as many as blocks are written: piece i is the compressor called with i, the number of blocks, at most dictSize input bytes in front of the block, and the block; a schedule that cannot go on has them all |
| ParallelThreads.Mt.UpdateDict | compress_parallel.cpp:115-121 | the memory copies give the next dictionary |
| ParallelThreads.Mt.ReadBlock | compress_parallel.cpp:100-122 | the read section on the shared arrays takes the next block with its dictionary and rolls the dictionary except behind the last block |
| ParallelThreads.Mt.PushToList | compress_parallel.cpp:131-135 | the search for the place inserts by index |
| ParallelThreads.DrainIsSteps | compress_parallel.cpp:137-147 | the write loop without interruption is a run of single write steps of one worker |
| ParallelThreads.Mt.WriteReady | compress_parallel.cpp:137-147 | the write loop writes all blocks that are ready, in order, and returns their buffers |
| Channel.RoundOutcomes | libParallel/parallel_import_c.c:439-495 | a send is refused exactly when the channel is closed, or full without waiting; an accept succeeds exactly when something is left, also after close, and gives the oldest item |
| Channel.RingChannel.PushBack | libParallel/parallel_import_c.c:408-420 | the item goes to the end of the ring's contents |
| Channel.RingChannel.PopFront | libParallel/parallel_import_c.c:422-437 | the first item of the ring's contents is taken |
| Channel.RingChannel.TrySend | libParallel/parallel_import_c.c:443-459 | one round under the lock on the ring is one round of the queue |
| Channel.RingChannel.TryAccept | libParallel/parallel_import_c.c:475-492 | one round under the lock on the ring is one round of the queue |
| Channel.DequeChannel.TrySend | libParallel/parallel_channel.cpp:84-109 | the deque of any capacity, with capacity 0 taking any number of items, does one round of the same queue |
| Channel.DequeChannel.TryAccept | libParallel/parallel_channel.cpp:121-138 | the deque does one round of the same queue |
| ChannelWaiting.StepKeepsInv | libParallel/parallel_import_c.c:396-495 | every step keeps: while a receiver waits unsignalled there are at least as many woken receivers as items, the same for senders and free slots, nobody waits unsignalled at a closed channel, and the waiting count is right; with callers that do not wait in line, spurious wake-ups and close |
| ChannelWaiting.RunKeepsInv | libParallel/parallel_import_c.c:396-495 | no wake-up is lost in any run |
| ChannelWaiting.QuietState | libParallel/parallel_import_c.c:439-495 | once all woken threads have run, receivers wait only at an empty channel, senders only at a full one, and never both |
| ChannelWaiting.WokenCanRun | libParallel/parallel_import_c.c:439-495 | a woken thread can always go on |
| ChannelWaiting.FifoInEveryRun | libParallel/parallel_import_c.c:408-495 | in every run the items pushed are those accepted followed by those queued, within the bound |
| ChannelWaiting.RunKeepsHistory | libParallel/parallel_import_c.c:396-459 | what was pushed and accepted stays so, a closed channel stays closed, and nothing is pushed after close |
| ChannelWaiting.Rendezvous | libParallel/parallel_import_c.c:461-472 | a send at capacity 0, in C or C++, that returns on an open channel had its own item accepted |
| ChannelWaiting.UnboundedSendReturns | libParallel/parallel_channel.cpp:84-119 | with a negative capacity no sender ever waits in any run, and a send pushes its item exactly when the channel is open |
| ChannelCalls.CloseCall | libParallel/parallel_import_c.c:396-406 | a close succeeds in every reachable state: the channel is closed, queue and history are unchanged, everyone who waited is woken, nobody waits, and all others are as before |
| ChannelCalls.ClosedReturns | libParallel/parallel_import_c.c:439-495 | at a closed channel every thread inside a call is outside behind its next step |
| ChannelCalls.AllReturn | libParallel/parallel_import_c.c:396-495 | after a close there is a run of one step for each thread inside a call behind which all callers have returned |
| ChannelCalls.SendCall | libParallel/parallel_import_c.c:439-472 | a send that begins: refused, waiting and counted, or its item pushed and one waiting receiver woken, if there is one; nobody else moves |
| ChannelCalls.AcceptCall | libParallel/parallel_import_c.c:474-495 | an accept that begins: the first item taken and one waiting sender woken, if there is one; or refused or waiting and counted; nobody else moves |
| ChannelCalls.ResumeCall | libParallel/parallel_import_c.c:439-495 | a woken thread goes on as if its call began now and is not counted as waiting any more |
| BsdiffCodes.ReadWord | bsdiff_wrapper/bspatch_wrapper.c:54-60 | a 64-bit word read as two 32-bit halves is the little-endian word that was written |
| BsdiffCodes.SignedOfSignMagnitude | bsdiff_wrapper/bsdiff_wrapper.cpp:47-53 | decoding a sign and magnitude word gives the value back modulo 2^64 if and only if it is not 2^63 |
| BsdiffCodes.NextOldPos | bsdiff_wrapper/bspatch_wrapper.c:162-175 | the wrapped difference of two positions below 2^63, encoded and decoded, leads from one to the other |
| BsdiffCodes.ReadIsWord | bsdiff_wrapper/bspatch_wrapper.c:43-60 | the eight bytes of a word with their weights, the lowest first |
| BsdiffRoundTrip.BsdiffCoversChain | bsdiff_wrapper/bsdiff_wrapper.cpp:243-264 | with the begin and end covers the list starts at 0, ends at the end of the new data, and adds no other cover |
| BsdiffLayout.BsdiffCoversAre | bsdiff_wrapper/bsdiff_wrapper.cpp:243-264 | the list is the given covers, behind an empty cover at the begin exactly when the first one is not there, and in front of an empty cover at the end |
| BsdiffLayout.CtrlAt | bsdiff_wrapper/bsdiff_wrapper.cpp:47-106 | triple i of the control stream is at byte 24 * i: the length of cover i, the new bytes up to the next cover, and the distance to it in the old data, a negative one as its magnitude with the top bit set |
| BsdiffLayout.SubAt | libHDiffPatch/HDiff/private_diff/limit_mem_diff/stream_serialize.cpp:284-379 | where the sub bytes of cover i stand, and that each of them added to its old byte is its new byte modulo 256 |
| BsdiffLayout.GapsAreUncovered | libHDiffPatch/HDiff/private_diff/limit_mem_diff/stream_serialize.cpp:198-265 | the copy stream is, byte by byte, the new bytes under no cover |
| BsdiffLayout.InterlacedFront | bsdiff_wrapper/bsdiff_wrapper.cpp:108-178 | the interlaced stream is the triple, the sub bytes and the copy bytes of the first cover, then the same for the others |
| BsdiffRoundTrip.AddSub | bsdiff_wrapper/bspatch_wrapper.c:119-133 | old bytes plus the sub data modulo 256 are the new bytes |
| BsdiffRoundTrip.RoundOfCover | bsdiff_wrapper/bspatch_wrapper.c:146-177 | one round of the patcher on the triple and data of a cover leads from that cover to the next |
| BsdiffRoundTrip.PatchThree | bsdiff_wrapper/bspatch_wrapper.c:135-180 | the patcher on the three streams rebuilds the new data |
| BsdiffRoundTrip.PatchOne | bsdiff_wrapper/bspatch_wrapper.c:135-180 | the patcher on the interlaced stream rebuilds the new data |
| BsdiffRoundTrip.StreamsRoundTrip | bsdiff_wrapper/bsdiff_wrapper.cpp:186-264 | both forms, for every sorted, disjoint, in-range cover list |
| BsdiffFile.FileRoundTrip | bsdiff_wrapper/bspatch_wrapper.c:68-98 | file heads, packed streams and all: both file forms patch to the new data, except exactly when a packed stream is too short for the reader's checks; for every compressor whose decompressor gives back at least what was packed |
| BsdiffLayout.ThreeStreamHead | bsdiff_wrapper/bsdiff_wrapper.cpp:186-241 | the header: the name, the sizes of the packed control and sub data, and the size of the new data as words at bytes 8, 16 and 24; the three packed streams follow |
| BsdiffLayout.OneStreamHead | bsdiff_wrapper/bsdiff_wrapper.cpp:186-214 | the header of the interlaced file: its name and the size of the new data |
| BsdiffLayout.PatchedLength | bsdiff_wrapper/bspatch_wrapper.c:135-180 | a patch that succeeds, whatever the streams hold, has exactly the announced length |
| BsdiffFile.NoCoversRefused | libHDiffPatch/HPatch/patch.c:556-560 | the input where it happens: without covers, a compressor that makes nothing of nothing gives a three-stream file that is refused |
| BsdiffPadding.PatchExtends | bsdiff_wrapper/bspatch_wrapper.c:225-250 | bytes that a decompressor delivers behind the streams never change a patch that succeeds without them |
| BsdiffStreams.CtrlStream.ReadTo | bsdiff_wrapper/bsdiff_wrapper.cpp:81-97 | any consecutive read, for any buffer size from 24 on, returns those bytes of the whole control data, and fails exactly when it is not consecutive or goes past the end |
| BsdiffStreams.InterlaceStream.ReadTo | bsdiff_wrapper/bsdiff_wrapper.cpp:141-178 | any consecutive read returns those bytes of the whole interlaced data, wherever it starts and ends inside triples and pieces |
| BsdiffStreams.InterlaceStream.constructor | bsdiff_wrapper/bsdiff_wrapper.cpp:108-130 | the announced size is the length of the whole data, all of which can be read |
| BsdiffStreams.InterlacedLength | bsdiff_wrapper/bsdiff_wrapper.cpp:112-120 | the interlaced data is as long as its three parts together |
| BsdiffStreams.ToBsdiffCovers | bsdiff_wrapper/bsdiff_wrapper.cpp:243-264 | inserts the begin and end covers |
| BsdiffStreams.SubData | libHDiffPatch/HDiff/private_diff/limit_mem_diff/stream_serialize.cpp:284-379 | new minus old modulo 256 under the covers, or zeros, cover by cover |
| BsdiffStreams.PushCtrl | bsdiff_wrapper/bsdiff_wrapper.cpp:215-219 | draining the stream in steps of any size gives all control data |
| BsdiffStreams.PushInterlaced | bsdiff_wrapper/bsdiff_wrapper.cpp:204-213 | draining the stream in steps of any size gives all interlaced data |
| BsdiffStreams.CreateBsdiff | bsdiff_wrapper/bsdiff_wrapper.cpp:266-293 | the file is the one of the packed streams, and patches to the new data, in both forms, for any buffer size from 24 on and any step, unless a packed stream is too short |
| BsPatch.ReadUInt64From | bsdiff_wrapper/bspatch_wrapper.c:150-155 | a word is read through the buffered reader; it fails exactly when fewer than 8 bytes are left |
| BsPatch.AddOldWithSub | bsdiff_wrapper/bspatch_wrapper.c:119-133 | the chunked loop appends old plus sub modulo 256 for the whole length |
| BsPatch.BspatchByClip | bsdiff_wrapper/bspatch_wrapper.c:135-180 | the loop on buffered streams, separate or all the same one, succeeds exactly when the patcher's account does and writes the same bytes |
| BsPatch.BspatchWithCache | bsdiff_wrapper/bspatch_wrapper.c:188-266 | a success is the right result for any memory size, and with five caches of 8 bytes it fails only if the patch does |
| Sfx.Search | hpatchz.c:1581-1607 | returns the first occurrence, or the end exactly when there is none |
| Sfx.CopyProgram | hpatchz.c:1630-1666 | for every chunk size from the marker size on, the carried bytes make the chunked scan find the first marker of the whole program, and the output is the program with that marker stamped |
| Sfx.CreateSfx | hpatchz.c:1609-1688 | succeeds exactly for a program below 4 GB that holds the marker; the output is the program with offset and size behind the guid of the first marker, then the diff |
| Sfx.StampReadBack | hpatchz.c:1764-1784 | reading the stamped bytes gives offset and size, except exactly when one of them is all ones |
| Sfx.StampBytes | hpatchz.c:1641-1652 | offset and size stand behind the sixteen guid bytes, in four and eight bytes, the lowest first, and no other byte is changed |
| IgnoreMatch.SegmentsAreRuns | _dir_ignore.h:137-147 | the segments are non-empty, hold no `*`, and joined they are the pattern without its `*` |
| IgnoreMatch.PossibleIsMatch | _dir_ignore.h:97-132 | the backtracking search succeeds if and only if places for all segments exist, in order and without overlap, no separator between two of them, and name borders at a front and a back not opened by `*` |
| IgnoreMatch.MatchIgnore | _dir_ignore.h:97-132 | the recursive loop with its cursor returns the search's answer |
| IgnoreMatch.IsMatchIgnore | _dir_ignore.h:134-152 | true exactly when such places exist; a pattern of `*` alone matches everything; the IgnoreNames lemmas say what that is over the names of the path |
| IgnoreNames.PlainPattern | _dir_ignore.h:97-152 | a pattern with neither wildcard nor separator matches exactly when it is one of the names of the path |
| IgnoreNames.FrontPattern | _dir_ignore.h:97-152 | `t*` matches exactly when some name begins with t |
| IgnoreNames.BackPattern | _dir_ignore.h:97-152 | `*t` matches exactly when some name ends with t |
| IgnoreNames.MiddlePattern | _dir_ignore.h:97-152 | `*t*` matches exactly when t stands in some name |
| IgnoreNames.RootedPattern | _dir_ignore.h:97-152 | a separator and t match exactly when t is a name behind the first |
| IgnoreNames.FolderPattern | _dir_ignore.h:97-152 | t and a separator match exactly when t is a name in front of the last |
| IgnoreNames.TwoPattern | _dir_ignore.h:97-152 | `a*b` matches exactly when one name begins with a and ends with b, without overlap |
| Decimal.ParseExactly | _atosize.h:39-61 | a string is read as v if and only if it is the decimal form of v: no leading zero, no overflow, nothing else |
| Decimal.DigitsAreDecimal | _atosize.h:103-112 | the digits of a number have its value and no leading zero |
| Decimal.AToU64 | _atosize.h:39-61 | the loop with its overflow test reads that value or fails |
| Decimal.U64ToEnoughA | _atosize.h:103-112 | the digits are written to the end of the buffer, 20 characters are enough, and the rest is terminated |
| HexText.UnhexOfHex | dirDiffPatch/dir_diff/dir_manifest.cpp:205-209 | digits swapped in each pair, read and swapped back are the bytes |
| HexText.DigitsInBothCases | _hextobytes.h:38-90 | digits are written in lower case and read in both cases, and nothing else is a digit |
| HexText.BytesToHexs | _hextobytes.h:41-62 | two digits for each byte, high half first |
| HexText.ChecksumHex | dirDiffPatch/dir_diff/dir_manifest.cpp:154-159 | digits with each pair swapped in place |
| HexText.HexsToBytes | _hextobytes.h:97-107 | the check accumulated over all digits holds exactly when every character is a hex digit |
| HexText.HexToData | dirDiffPatch/dir_diff/dir_manifest.cpp:205-209 | fails exactly when a character is no digit, and else gives the bytes with halves swapped back |
| Manifest.SeparatorRoundTrip | dirDiffPatch/dir_diff/dir_manifest.cpp:116-190 | mapping separators to the saved form and back gives the path if and only if the platform's separator is the saved one or the path does not hold the saved one |
| Manifest.LoadRecords | dirDiffPatch/dir_diff/dir_manifest.cpp:255-305 | from any record on, each tag search hits the next record, and the rest is loaded |
| Manifest.LoadOfSave | dirDiffPatch/dir_diff/dir_manifest.cpp:210-306 | loading the saved text of a path list under one root gives back checksum type, paths in order, checksum size and the checksum of each file at its place |
| ManifestText.SavedText | dirDiffPatch/dir_diff/dir_manifest.cpp:131-170 | the saved text: version, checksum type and number of paths in their lines, an empty line, and one line for each path, character by character: for a file with a checksum its digits, low half first, and `:`; then the path with `/` for separators |
| ManifestText.LoadedHolds | dirDiffPatch/dir_diff/dir_manifest.cpp:210-306 | loading a saved text succeeds and gives for each path its place, for each file its checksum and for each directory zeros; there are checksums if and only if a file was checked |
| ManifestText.LoadedShape | dirDiffPatch/dir_diff/dir_manifest.cpp:210-306 | whatever text is loaded: at least one path, the root first and in front of all, and room for one checksum for each path |
| Manifest.SaveManifest | dirDiffPatch/dir_diff/dir_manifest.cpp:131-170 | the printing loops give the saved text |
| Manifest.StoreSum | dirDiffPatch/dir_diff/dir_manifest.cpp:292-303 | the first checksum fixes the size and makes room for all, each later one must have that size and goes to its place; else it fails |
| Manifest.LoadManifest | dirDiffPatch/dir_diff/dir_manifest.cpp:210-306 | parsing with searches and pointers fails exactly when the format's account does and else gives the same manifest |

## Left out

- Compression, decompression and checksum plugins: VCDIFF is modelled uncompressed, the compressed branch of the writer and patcher and the Adler-32 check are not (checksum bytes are read over), and a bsdiff compressor is any function with an inverse.
- 64-bit overflow of sizes in corrupt input: decoders add lengths as natural numbers.
- Failing reads and writes of files, memory allocation and progress output: streams are byte lists.
- Match finding: covers are input, with what the finders promise of them as preconditions; VCDIFF covers of length 0 are excluded.
- `fixRedundentEncoding`, directory listing, checksum computation, command lines, thread wrappers and the JNI and UE wrappers.
- The error paths of the parallel compressor, and the place of the code in the slot of a work buffer.
- `is_can_fast_send` of the channels: it can use up a wake-up without filling a slot, so that it is outside the wake-up invariant.
- A failing `push_back` of the C++ channel.
- `c_channel_delete` and the destructor of the C++ channel, which wait for the waiting count to reach 0.
- VcPatchFile.CacheSource: reads the cached source window out once for each window, where the source reads the ring on demand; the ring does not change in between.
- BsPatch.BspatchWithCache: a decompressor is a function from packed to unpacked bytes, possibly with padding behind them; the source's decompressors pad a stream that is too short as far as the reader asks, so that a too short stream need not fail there.
- Sfx.StampReadBack: the source's assertion that the offset is above 28, which only a program that is nothing but the marker violates.
- VcPatchFile.RunDelta: makes a new output cache for each window, where the source resets one.
- VcPatch.VcpatchDelta: the output stream is readable, as the source demands for copies behind the cache.
- BsdiffStreams.SubData: builds the bytes that `TNewDataSubDiffStream` delivers in pieces, without its read state; the same holds for VcdiffWriter.NewDataDiff and `TNewDataDiffStream`.
- BsdiffStreams.CreateBsdiff: asks of the compressor that packed streams stay below 2^64 bytes, which the 8-byte size fields of the file need.
- IgnoreMatch.IsMatchIgnore: separator and wildcard are any two characters of the platform; patterns come formatted; `formatIgnorePathName`, `_formatIgnorePathSet` and the parsing of pattern lists are not modelled.
- Manifest.LoadOfSave: paths must be plain lines (no line end inside, no carriage return at the end), which the text format cannot tell apart otherwise.
