# Models of the archive, animation and sound code

Dafny models of five pieces of the server's shared code, with proofs of what each is for.

**The DEFLATE compressor and its zip file** (`server_src/public/XZip.cpp`). `Inflate` is a decoder
written from RFC 1951 alone; everything the compressor does is stated against it, layer by layer:

* bits: `BitStrings`, `BitPacking` (the 16-bit packer);
* codes: `Canonical`, `HeapQueue`, `BuildTree`, `JoinLoop`, `Forest`, `Optimality`, `CodeLengths`,
  `UncutLengths` (when the length limit is never met), `GenBitlen`, `LengthLimit`, `Reassign`, `GenCodes`, `Huffman`
  (one Huffman tree, from frequencies to codes), with `Sums` and `Tallies` for weighted sums and counts;
* tables: `RunLengths`, `TreeHeader`, `DynamicHeader` (the head of a dynamic block), `CodeTables` (`ct_init`);
* blocks: `Tokens`, `TokenBuffer`, `Blocks`, `BlockBound` (how long a block can get), `BlockCost`, `FlushBlock`;
* matching: `Hashing`, `Window`, `LongestMatch`, `Deflate`, `StaleHead`;
* the archive in memory: `LittleEndian`, `Crc`, `MemoryZip`.

The end results are `Deflate.Compress` (any input, delivered in any pieces, compresses to bytes that
decode to that input) and `MemoryZip.TZip.GetMemory` (after any sequence of additions, the image gives back
every file by name and content).

**The other cores.** `ZipArchive` is `CZipFile` (`server_src/public/zip_utils.cpp`): an archive writer, parser,
alignment and size prediction. `FlexRules` is the pair of flex-rule interpreters and `ActivityMap` the
activity index (`server_src/public/studio.cpp`). `SoundDelta` is the delta coding of sounds
(`server_src/public/soundinfo.h`). `BitVec` is the variable bit vector (`server_src/public/bitvec.h`).

## How it is built

Objects the source updates in place are classes with its fields, and its loops are loops over arrays. Each
method is proved against a specification on values, and the properties are lemmas about that specification.
Positions in the sliding window are stated in absolute terms: `base` is where the window starts in the input.
The methods carry ghost state only to name what the source leaves implicit: the bits sent, the tokens held,
the files added.

## Where the code does not do what it promises

* **A false alarm in the matcher.** When fewer than three bytes are left, the hash head is stale
  (`server_src/public/XZip.cpp:1936-1937`). After a last slide it can equal `strstart`; `longest_match` is then
  given the current string itself, its "no future" check sets the error, and `ideflate` reports failure although
  the bytes are right. `Deflate.Step` says exactly when one turn raises the error, by the guard in front of
  `longest_match`. `Deflate.Compress` says it of whole inputs: it is raised for every input in `Caught`, and for
  none outside `AtRisk`. Both speak of the length and of the place where the hash of the last three bytes was last
  seen. They are the same for inputs whose length leaves 32507 modulo 32768 (`StaleHead.RiskDecided`), and
  `StaleHead.StaleIsCaught` is one of 65275 bytes.
* **A directory cut short unnoticed.** `putend` ignores its writes, so `AddCentral` reports success when the
  directory fits and the end record does not (`server_src/public/XZip.cpp:2851-2880`). `MemoryZip.TZip.AddCentral`
  gives both conditions, and in `MemoryZip.CutShort` it happens, with one folder and 110 bytes of memory.
* **Sixteen bits for the number of entries.** With 65536 entries or more the image no longer gives back its
  files (`MemoryZip.ArchiveReads`); `MemoryZip.TooMany` adds that many folders and nothing can be read. The other
  archive gives back only as many files as their number leaves modulo 65536 (`ZipArchive.RoundTrip`).
* **A size predicted short.** `CalculateSize` leaves out the padding around the directory; `ZipArchive.SizePredicted`
  says by how much it is off and `ZipArchive.SizeRight` when it is right.
* **Two meanings of STUDIO_DOMINATE.** The interpreters differ; `FlexRules.DominateAgrees` says exactly when
  they agree and `FlexRules.DominateDiffers` shows a rule on which they do not.
* **Two ends of the stack.** A rule that leaves more than one number has the lowest as its value in one interpreter
  and the highest in the other (`server_src/public/studio.cpp:1564` and `:1801`). `FlexRules.SameRule` says exactly
  when these agree, and `FlexRules.TwoLeftDiffer` is a rule on which they do not.
* **A delay compared with the wrong baseline.** The sound writer compares a tick-adjusted delay with an unadjusted
  one. `SoundDelta.ListRight` says exactly which lists are still read right, `SoundDelta.DelayRight` which delays
  of a list, and `SoundDelta.KeepsOldDelay` shows two sounds of which the second is read wrong. No other field is
  ever affected (`SoundDelta.ListBack`).
* **An end record that contains its own signature.** The backward search in `ParseFromBuffer` is right exactly
  when that does not happen (`ZipArchive.EndFoundIff`). `ZipArchive.MistakenArchive` is an archive with one file
  that is not found again.
* **A carriage return at the end of a text.** `ReadTextData` looks one byte past it (`ZipArchive.TextRoundTrip`);
  `ZipArchive.CarriageReturnLost` is the shortest case.
* The comment in front of `fill_window` allows `strstart` to equal `window_size - MIN_LOOKAHEAD` on return; in
  sliding mode it always ends below it. The comment on `gen_bitlen` calls the nodes in the heap sorted by
  increasing frequency; what holds, and what the code needs, is that they are sorted by decreasing frequency from
  `heap_max` on.

## Model

| member | source | states |
|---|---|---|
| Deflate.Compress | server_src/public/XZip.cpp:2639-2656 | For every input and every way the reader splits it, the bytes handed over decode, by RFC 1951, to exactly the input; the returned size is their number and at most (12n + 36) / 8 for n bytes. The error flag is raised for every input whose length and last three bytes put it in Caught and for none outside AtRisk |
| Deflate.Deflate | server_src/public/XZip.cpp:1921-2023 | The same for the loop itself, from any freshly set up state: total decoding, exact length, size bound, termination and the error flag |
| Deflate.Step | server_src/public/XZip.cpp:1932-2018 | One turn keeps the invariant of the loop: the tokens of the open block stand for the input from the start of the block up to here, less the one byte pending; it goes strictly forward, near the end hash_head is where the last string of all was seen before, and the error flag rises exactly when longest_match is about to be given the current string itself |
| Deflate.Turn | server_src/public/XZip.cpp:1932-2018 | For every input in Caught, however it is parsed, a turn keeps the run on its way to the stale hash head |
| Deflate.FindMatch | server_src/public/XZip.cpp:1936-1965 | A match reported longer than the pending one and at least 3 long is a true match within the input; the hash head is right or known to be stale |
| Deflate.LookBack | server_src/public/XZip.cpp:1944-1965 | The guards, the clamp to the lookahead and the distance limit on short matches leave a true match or none; exact condition for the "no future" assertion |
| Deflate.InsertString | server_src/public/XZip.cpp:1566-1569 | INSERT_STRING returns the newest earlier string with the same hash and keeps every chain |
| Deflate.EmitMatch | server_src/public/XZip.cpp:1969-1991 | The pending match goes out with a distance right modulo 2^32 even when match_start wrapped in a slide, and covers exactly its length of input |
| Deflate.PassMatch | server_src/public/XZip.cpp:1974-1987 | Skipping a match inserts every string in it that has three bytes of input |
| Deflate.InsertRest | server_src/public/XZip.cpp:1979-1986 | The inner loop keeps the chains and the running key ready |
| Deflate.EmitLiteral | server_src/public/XZip.cpp:1993-2003 | At most one literal goes out and the tokens lag the position by exactly one byte |
| Deflate.Postpone | server_src/public/XZip.cpp:1993-2011 | The match just found becomes the pending one, in absolute positions |
| Deflate.Refill | server_src/public/XZip.cpp:2013-2018 | Filling the window changes no position in the input, and keeps the pending match |
| Deflate.Flush | server_src/public/XZip.cpp:1830-1832 | A flushed block adds exactly the input bytes of the block to what the stream means |
| Deflate.FlushLast | server_src/public/XZip.cpp:1830-1832 | After the last block the whole stream decodes to all input consumed and the returned length is the number of bytes |
| Deflate.LmInit | server_src/public/XZip.cpp:1580-1635 | The state set up has empty chains, position 0 and the first bytes of the input in the window |
| Deflate.CopyIsInput | server_src/public/XZip.cpp:1650-1726 | Copying byte by byte from a true match, overlaps included, reproduces the input |
| Deflate.CoversMatch | server_src/public/XZip.cpp:1971-1972 | A true match appended to tokens that stand for the input up to a position makes them stand for the input up to its end |
| StaleHead.StaleStep | server_src/public/XZip.cpp:1936-1956 | In every such input each possible turn leads towards a stale hash head equal to strstart |
| StaleHead.NoMatchToEnd | server_src/public/XZip.cpp:1650-1726 | In such an input no match ends with the input, so the last byte is always the start of a turn |
| StaleHead.SeenFrom | server_src/public/XZip.cpp:1566-1569 | The head of the last chain is the place a window before the last byte |
| StaleHead.RiskDecided | server_src/public/XZip.cpp:1936-1956 | At lengths where the window slides before the last byte only, the flag rises exactly when the hash of the last three bytes was last seen a window before it |
| StaleHead.StaleIsCaught | server_src/public/XZip.cpp:1936-1956 | There is an input for which it rises |
| Window.DeflateState.FillWindow | server_src/public/XZip.cpp:1756-1824 | Everything in the window, chains and candidates keeps its absolute place; strstart ends below window_size - MIN_LOOKAHEAD and the lookahead is enough unless the input ended. The assertion more >= 2 holds |
| Window.DeflateState.Slide | server_src/public/XZip.cpp:1777-1799 | The slide moves the base by WSIZE and preserves window bytes and chains in absolute terms |
| Window.SlideChains | server_src/public/XZip.cpp:1788-1798 | After a slide each entry is the same absolute string or has been dropped |
| Window.SlideWindow | server_src/public/XZip.cpp:1782 | Copying the upper half down keeps every byte still inside the window |
| Window.InsertStep | server_src/public/XZip.cpp:1566-1569 | Inserting the next string keeps all heads and links |
| Window.Reader.Read | server_src/public/XZip.cpp:2595-2611 | The input arrives in arbitrary non-empty pieces, in order, until it is exhausted |
| LongestMatch.Search | server_src/public/XZip.cpp:1650-1726 | Any length above prev_length is a true match once cut to the lookahead; nothing is read outside the window, the window assertions hold, and "no future" fails exactly when the chain starts at the current string |
| LongestMatch.Examine | server_src/public/XZip.cpp:1681-1712 | A candidate whose ends and start agree matches for the length found |
| LongestMatch.Compare | server_src/public/XZip.cpp:1697-1712 | The eight-fold unrolled comparison finds agreement from byte 3 up to the length, and the first difference |
| LongestMatch.ChainNext | server_src/public/XZip.cpp:1722-1723 | A link within reach leads to a strictly older string with the same hash |
| LongestMatch.Found | server_src/public/XZip.cpp:1691-1697 | Leaving out byte 2 is sound: equal hash and equal first two bytes give an equal third |
| Hashing.SameThird | server_src/public/XZip.cpp:1691-1697 | Equal three-byte hashes with equal first two bytes force equal third bytes |
| Hashing.KeyRolls | server_src/public/XZip.cpp:1556 | The rolling key becomes the hash of the three bytes, independent of older ones |
| FlushBlock.BlockSender.FlushBlock | server_src/public/XZip.cpp:1228-1319 | Whichever kind of block is chosen, the bits sent decode to exactly the data of the block and are at most 11 bits a byte and 29 more; the "bad compressed size" assertion holds; at the end the stream is padded to a byte and the result is the number of bytes written |
| FlushBlock.BlockSender.SendBest | server_src/public/XZip.cpp:1279-1308 | The stored, static or dynamic block sent means the same data, and the running size equals the bits sent |
| FlushBlock.BlockSender.SendStored | server_src/public/XZip.cpp:1279-1292 | A stored block: header, padding, both lengths and the bytes; size account exact |
| FlushBlock.BlockSender.SendStatic | server_src/public/XZip.cpp:1293-1299 | A static block takes exactly static_len + 3 bits |
| FlushBlock.BlockSender.SendDynamic | server_src/public/XZip.cpp:1300-1307 | A dynamic block takes exactly opt_len + 3 bits |
| FlushBlock.BlockSender.BuildTrees | server_src/public/XZip.cpp:1238-1251 | The three trees describe each other and code every token; opt_len and static_len are the sizes of the two encodings |
| FlushBlock.BlockSender.InitBlock | server_src/public/XZip.cpp:795-808 | Buffers, frequencies and sizes start empty with one end-of-block |
| FlushBlock.BlockSender.constructor | server_src/public/XZip.cpp:1440-1450 | A fresh sender has sent nothing and holds valid tables |
| Blocks.StaticBlock | server_src/public/XZip.cpp:1293-1299 | A decoder reads back a static block as its tokens, per RFC 1951 section 3.2.6 |
| Blocks.DynamicBlock | server_src/public/XZip.cpp:1300-1307 | A decoder reads back a dynamic block as its tokens, per RFC 1951 section 3.2.7 |
| Blocks.StoredBlock | server_src/public/XZip.cpp:1279-1292 | A decoder reads back a stored block as its bytes, per RFC 1951 section 3.2.4 |
| BlockBound.StaticBound | server_src/public/XZip.cpp:1293-1299 | A static block takes at most 11 bits a byte of data and 12 more |
| BlockBound.TokenBound | server_src/public/XZip.cpp:1376-1417 | Under the fixed codes a token takes at most 11 bits for each byte it stands for |
| BlockBound.ExpandGrows | server_src/public/XZip.cpp:1325-1345 | Every token stands for at least one byte |
| Blocks.MeansMore | server_src/public/XZip.cpp:1228-1319 | A block after what was sent extends what the stream means |
| Blocks.MeansAll | server_src/public/XZip.cpp:1311-1319 | The padded stream decompresses to everything |
| BlockCost.BlockSize | server_src/public/XZip.cpp:904-909 | Frequencies times (code length + extra bits) is exactly the size of the data of a block |
| BlockCost.TokensCost | server_src/public/XZip.cpp:1376-1417 | The size of any token list under any code is the cost of its symbols |
| BlockCost.CodeTrim | server_src/public/XZip.cpp:1302 | Sending the lengths only up to the last used code changes no code word |
| TokenBuffer.TokenBuffer.Append | server_src/public/XZip.cpp:1325-1371 | One token is appended to the buffered list, the flag bytes and both frequency tables follow, and whether the block must end is said exactly |
| TokenBuffer.TokenBuffer.ShouldStop | server_src/public/XZip.cpp:1351-1370 | The block ends exactly when a buffer is full or, every 4096 tokens, when matches are few and the bound on its size is below half the input |
| TokenBuffer.TokenBuffer.CompressBlock | server_src/public/XZip.cpp:1376-1417 | The bits sent are those of the buffered tokens, in order, and the end code |
| TokenBuffer.TokenBuffer.Reset | server_src/public/XZip.cpp:800-807 | No token is held |
| Tokens.ReadTokensBack | server_src/public/XZip.cpp:1376-1417 | A decoder that expands tokens as it reads gets exactly the tokens that were sent |
| Tokens.ExpandSnoc | server_src/public/XZip.cpp:1325-1345 | A token appended to a valid list expands after it |
| CodeTables.Tables.constructor | server_src/public/XZip.cpp:721-790 | All tables ct_init fills are right |
| CodeTables.InitLengths | server_src/public/XZip.cpp:736-749 | Length codes, with 258 moved to its own code, agree with RFC 1951 section 3.2.5; the two assertions on the running index hold |
| CodeTables.InitNearDistances | server_src/public/XZip.cpp:751-759 | Distance codes for the first 256 distances |
| CodeTables.InitFarDistances | server_src/public/XZip.cpp:760-767 | Distance codes for the rest, looked up by the distance divided by 128 |
| CodeTables.InitStaticLiterals | server_src/public/XZip.cpp:769-780 | The static literal tree is the fixed code of RFC 1951 section 3.2.6 |
| CodeTables.InitStaticDistances | server_src/public/XZip.cpp:782-786 | The static distance tree is the fixed 5-bit code |
| DynamicHeader.ReadHeader | server_src/public/XZip.cpp:1198-1221 | Decoding what send_all_trees sends gives back exactly both tables of lengths |
| DynamicHeader.SendAllTrees | server_src/public/XZip.cpp:1198-1221 | Counts, bit-length lengths and both run-length coded tables go out in this order |
| DynamicHeader.BuildBlTree | server_src/public/XZip.cpp:1165-1192 | opt_len grows by exactly the size of the header; every bit-length symbol to be sent has a code; max_blindex is the last one needed |
| DynamicHeader.HeaderSize | server_src/public/XZip.cpp:1183-1188 | The account made in advance is the length of the header bits |
| TreeHeader.ScanTree | server_src/public/XZip.cpp:1075-1111 | The bit-length frequencies count exactly the symbols of the run-length form, no counter leaves 16 bits, and the guard is set |
| TreeHeader.SendTree | server_src/public/XZip.cpp:1117-1159 | The bits sent are those of the run-length form |
| RunLengths.ReadRle | server_src/public/XZip.cpp:1117-1159 | RFC 1951 section 3.2.7 undoes the run-length form from any point in it |
| TreeHeader.RecountIsTally | server_src/public/XZip.cpp:1091-1101 | Each branch of scan_tree counts the symbols the same branch of send_tree sends |
| Huffman.Build | server_src/public/XZip.cpp:995-1067 | build_tree: a complete canonical code within the limit for exactly the symbols that occur and those forced in when fewer than two do; opt_len and static_len grow by exactly the cost of the data under it; of two symbols that occur the rarer never has the shorter code; the lengths are a cheapest prefix code without a limit exactly when that one keeps the limit, as it does whenever the frequencies add up to less than a Fibonacci number |
| Huffman.GenerateLengths | server_src/public/XZip.cpp:873-947 | gen_bitlen: complete lengths within the limit, exact costs, never shorter for the rarer; equal to the free Huffman lengths, which no prefix code beats, exactly when those keep the limit, as they do below the Fibonacci bound |
| Huffman.FreeLengths | server_src/public/XZip.cpp:895-911 | The tree without a limit gives a cheapest prefix code, and the first pass cuts nothing exactly when that code keeps the limit |
| UncutLengths.LightIsUncut | server_src/public/XZip.cpp:895-911 | When all frequencies add up to less than the Fibonacci number of max_length + 3, no length is cut |
| UncutLengths.OverflowIsHeavy | server_src/public/XZip.cpp:895-911 | A node pushed up to the limit means that many occurrences below the root |
| UncutLengths.LimitCuts | server_src/public/XZip.cpp:895-898 | A limit cuts each length at the limit and changes no other |
| UncutLengths.FreeKeepsLimit | server_src/public/XZip.cpp:895-911 | If the leaves keep the limit without one, overflow stays zero |
| BuildTree.TreeBuilder.constructor | server_src/public/XZip.cpp:1008 | The builder starts with an empty heap and no cost |
| BuildTree.TreeBuilder.CollectSymbols | server_src/public/XZip.cpp:1010-1017 | Exactly the symbols that occur are on the heap |
| BuildTree.TreeBuilder.ForceTwo | server_src/public/XZip.cpp:1024-1030 | At least two symbols; the costs taken back in advance are those the forced symbols will add |
| BuildTree.ForcedFirst | server_src/public/XZip.cpp:1024-1030 | Which symbols are forced in depends only on those that occur, one after the other |
| HeapQueue.DownHeap | server_src/public/XZip.cpp:839-861 | Heap order from k on is restored; the same elements; nothing outside is touched |
| HeapQueue.RootIsSmallest | server_src/public/XZip.cpp:829-831 | In heap order the root is smaller than every element |
| JoinLoop.Heapify | server_src/public/XZip.cpp:1036 | The whole heap is in order |
| JoinLoop.PqRemove | server_src/public/XZip.cpp:818-823 | A lightest node is taken off and the heap stays in order |
| JoinLoop.JoinOnce | server_src/public/XZip.cpp:1042-1054 | The two lightest roots are joined; the nodes set aside stay sorted by frequency |
| JoinLoop.JoinAll | server_src/public/XZip.cpp:1041-1058 | What is left is one tree whose parents come before children in heap[heap_max..], with frequencies adding up |
| JoinLoop.CheapestStep | server_src/public/XZip.cpp:1041-1056 | If joining so far loses nothing against any prefix code, neither does joining the two lightest roots |
| Optimality.LightestDeepest | server_src/public/XZip.cpp:1041-1056 | Any prefix code can be rearranged, at no cost, to give the two lightest nodes the same greatest length |
| Optimality.JoinSaves | server_src/public/XZip.cpp:1041-1056 | Joining two siblings saves exactly their frequencies and keeps the Kraft sum |
| Optimality.SwapHelps | server_src/public/XZip.cpp:1041-1056 | Giving the longer code to the lighter node costs no more |
| GenBitlen.FirstPass | server_src/public/XZip.cpp:888-910 | Each node is one longer than its father up to the limit; counts, overflow and costs follow |
| CodeLengths.FirstPassKraft | server_src/public/XZip.cpp:895-911 | The Kraft sum exceeds 1 by half a unit per overflow, and enough leaves sit at the limit |
| CodeLengths.RarerIsLonger | server_src/public/XZip.cpp:895-911 | The first pass never makes the rarer of two nodes shorter |
| CodeLengths.FatherIsSum | server_src/public/XZip.cpp:1049 | A father weighs what its two sons weigh |
| LengthLimit.Repair | server_src/public/XZip.cpp:916-927 | The repair always finds a leaf to move, ends with a Kraft sum of exactly 1 and moves no leaf above the limit |
| LengthLimit.LeafToMove | server_src/public/XZip.cpp:918-919 | While the sum is too large some leaf lies above the limit |
| Reassign.DealLengths | server_src/public/XZip.cpp:934-946 | The counts are dealt out to the leaves in order of frequency and opt_len follows every change |
| GenCodes.GenerateCodes | server_src/public/XZip.cpp:957-985 | Every symbol gets the bit-reversed canonical code of RFC 1951 section 3.2.2 |
| GenCodes.FirstCodes | server_src/public/XZip.cpp:967-969 | next_code is the smallest code of each length; nothing wraps in 16 bits |
| GenCodes.LastCode | server_src/public/XZip.cpp:973-974 | The consistency check on the bit counts holds |
| GenCodes.BiReverse | server_src/public/XZip.cpp:1479-1487 | The bits of the code come out in reverse order |
| Canonical.PrefixFree | server_src/public/XZip.cpp:957-985 | No code word is a prefix of another |
| Canonical.CodeBitsPrefixFree | server_src/public/XZip.cpp:957-985 | The same said about the bits sent |
| Inflate.ReadSymbolBack | server_src/public/XZip.cpp:957-985 | A canonical decoder reads back each code word |
| BitPacking.BitWriter.constructor | server_src/public/XZip.cpp:1440-1450 | Nothing sent, nothing held |
| BitPacking.BitWriter.SendBits | server_src/public/XZip.cpp:1456-1472 | The sent bits grow by the value, least significant bit first; the buffer never holds more than 16 bits |
| BitPacking.BitWriter.PutShort | server_src/public/XZip.cpp:325-340 | Two bytes, low first, flushing when full |
| BitPacking.BitWriter.Windup | server_src/public/XZip.cpp:1492-1505 | Zero bits up to the byte boundary and no more, and the bytes written are exactly the bits |
| BitPacking.BitWriter.CopyBlock | server_src/public/XZip.cpp:1511-1531 | Padding, length, complement and the bytes |
| MemoryZip.TZip.Add | server_src/public/XZip.cpp:2672-2849 | After a success the archive holds one more file with this name and data; after any failure without a write error it reads as before. When a stored entry fits is stated exactly; a deflated one is accepted whenever the memory takes its largest possible size, unless the matcher raises its false alarm, and never when the alarm is certain |
| MemoryZip.TZip.AddEntry | server_src/public/XZip.cpp:2713-2849 | The part after the argument checks: ZR_WRITE only when the header has no room or the matcher can raise its false alarm, the write error otherwise; with room for the largest possible size it succeeds unless that alarm is raised, and it fails when that is certain |
| MemoryZip.TZip.Record | server_src/public/XZip.cpp:2800-2848 | Rewriting the local header and keeping the entry |
| MemoryZip.TZip.Rewrite | server_src/public/XZip.cpp:2805-2818 | Going back to the header and forth again leaves the data bytes alone and writ equal to opos |
| MemoryZip.Rewritten | server_src/public/XZip.cpp:2811-2817 | A header written over one as long changes no byte after it |
| MemoryZip.TZip.AddCentral | server_src/public/XZip.cpp:2851-2880 | Exactly when the directory and end record fit, the image is complete and writ equals opos; the result alone does not tell, since a cut-off end record goes unnoticed |
| MemoryZip.CutShort | server_src/public/XZip.cpp:2851-2880 | In 110 bytes a folder is added, the directory ends with a success, and the end record has set the write error |
| MemoryZip.TZip.GetMemory | server_src/public/XZip.cpp:2471-2480 | The finished image gives back every added file, names and bytes, exactly when there are fewer than 65536 |
| MemoryZip.ArchiveReads | server_src/public/XZip.cpp:2851-2880 | Each directory entry leads to its local header, and the end record delimits the directory; the 16-bit count decides whether all are read |
| MemoryZip.TooMany | server_src/public/XZip.cpp:2851-2880 | 65536 folders are added without an error, and reading the image gives none of them |
| MemoryZip.CentralReads | server_src/public/XZip.cpp:2066-2089 | The first n directory entries give the first n files |
| MemoryZip.PlacedReads | server_src/public/XZip.cpp:2036-2055 | Local header and data give back the file, with length and checksum agreeing |
| MemoryZip.TZip.PutLocal | server_src/public/XZip.cpp:2036-2055 | The local header is written whole, or the error is set |
| MemoryZip.TZip.PutCentral | server_src/public/XZip.cpp:2066-2089 | A central header is written whole exactly when the result says so |
| MemoryZip.TZip.Put | server_src/public/XZip.cpp:209-210 | Bytes one at a time: all of them, or as many as fit and the error |
| MemoryZip.TZip.Write | server_src/public/XZip.cpp:2439-2453 | All of the bytes, or none and the error |
| MemoryZip.TZip.Seek | server_src/public/XZip.cpp:2455-2469 | Moves only inside the memory |
| MemoryZip.TZip.AddData | server_src/public/XZip.cpp:2785-2793 | What is written stands for the data under the chosen method |
| MemoryZip.TZip.IStore | server_src/public/XZip.cpp:2658-2667 | The data is copied, a bufferful at a time, with its checksum |
| MemoryZip.TZip.IDeflate | server_src/public/XZip.cpp:2639-2656 | What is written decompresses to the input, and the size and checksum are right |
| MemoryZip.TZip.constructor | server_src/public/XZip.cpp:2348-2387 | An empty archive |
| Crc.UpdateConcat | server_src/public/XZip.cpp:2173-2179 | The checksum does not depend on how the input is cut into reads |
| Crc.Checksum | server_src/public/XZip.cpp:2173-2179 | The loop unrolled by eight computes the byte-by-byte checksum |
| ZipArchive.RoundTrip | server_src/public/zip_utils.cpp:604-729 | Parsing what was saved gives back all stored entries in order, or as many as their number modulo 65536, and the same format and alignment, with or without declared padding, when the end record cannot be mistaken |
| ZipArchive.SaveAndParse | server_src/public/zip_utils.cpp:1366-1555 | The same for the two objects: save one, parse into the other; and with fewer than 65536 files, as a map from names to bytes the second is the first without its empty files |
| ZipArchive.KeptTable | server_src/public/zip_utils.cpp:1387-1400 | What is saved is the table without its empty files |
| ZipArchive.EndFoundIff | server_src/public/zip_utils.cpp:624-651 | The backward search finds the real end record exactly when its own count, size and offset do not spell the signature again |
| ZipArchive.MistakenArchive | server_src/public/zip_utils.cpp:624-651 | An archive of one file whose end record is looked for in the wrong place and which never gives back the file |
| ZipArchive.ZipFile.SaveDirectory | server_src/public/zip_utils.cpp:1366-1555 | The stream is exactly local records, padded directory, end record and comment |
| ZipArchive.ZipFile.WriteFiles | server_src/public/zip_utils.cpp:1387-1457 | Local records and the offset of each |
| ZipArchive.ZipFile.WriteDirectory | server_src/public/zip_utils.cpp:1473-1518 | Directory records of the entries that have data |
| ZipArchive.ZipFile.ParseFromBuffer | server_src/public/zip_utils.cpp:604-729 | The object holds exactly what parsing means, or the buffer is no archive |
| ZipArchive.ZipFile.ReadDirectory | server_src/public/zip_utils.cpp:668-700 | The loop over the headers reads exactly the declared number |
| ZipArchive.ZipFile.InsertFiles | server_src/public/zip_utils.cpp:702-725 | Each entry gets its own bytes |
| ZipArchive.ZipFile.CalculateSize | server_src/public/zip_utils.cpp:1257-1297 | The prediction is the compatible layout without directory padding |
| ZipArchive.ZipFile.AddBufferToZip | server_src/public/zip_utils.cpp:945-1025 | The table from names to bytes holds the data under the lower-case name, whether it was there or not, and nothing else changes |
| ZipArchive.ZipFile.RemoveFileFromZip | server_src/public/zip_utils.cpp:1158-1168 | Exactly that name leaves the table; case matters unless the tree is sorted by name |
| ZipArchive.ZipFile.ReadFileFromZip | server_src/public/zip_utils.cpp:1031-1060 | The data the table holds under the lower-case name, cut to 511 characters |
| ZipArchive.SizePredicted | server_src/public/zip_utils.cpp:1257-1297 | How far the prediction is off: by the padding before and behind the directory, less what the incompatible format leaves out of it; so it is exact without alignment, and never short by more than 2(A-1) bytes |
| ZipArchive.SizeRight | server_src/public/zip_utils.cpp:1257-1297 | In the compatible format it is right exactly when the local records and the directory each fill a multiple of the alignment |
| ZipArchive.DirectorySizes | server_src/public/zip_utils.cpp:1501-1511 | The directories of the two formats differ by the paddings |
| ZipArchive.FilesAligned | server_src/public/zip_utils.cpp:1176-1185 | In the whole archive every file starts where its directory record leads, at a multiple of the alignment |
| ZipArchive.DataAligned | server_src/public/zip_utils.cpp:1176-1185 | The padding, cut to 16 bits, brings the data to the boundary |
| ZipArchive.CommentRoundTrip | server_src/public/zip_utils.cpp:1191-1251 | Reading the comment back restores format and alignment, unless alignment is forced |
| ZipArchive.TextRoundTrip | server_src/public/zip_utils.cpp:883-937 | Text mode gives back the text exactly unless it ends in a carriage return and a line feed happens to follow in memory |
| ZipArchive.CarriageReturnLost | server_src/public/zip_utils.cpp:883-904 | A carriage return alone comes back as a line feed when one follows in memory |
| ZipArchive.CopyTextData | server_src/public/zip_utils.cpp:910-937 | The loop doubles line ends |
| ZipArchive.ReadTextData | server_src/public/zip_utils.cpp:883-904 | The loop undoubles them, looking one byte past the data when that ends in a carriage return |
| ZipArchive.TextLength | server_src/public/zip_utils.cpp:860-877 | Exactly the room CopyTextData fills |
| FlexRules.SameRun | server_src/public/studio.cpp:1366-1803 | Any list of rules that each leave one number and hold no STUDIO_DOMINATE has the same results in both interpreters, earlier results they fetch included; one leaves the tables exactly when the other does |
| FlexRules.SameRule | server_src/public/studio.cpp:1366-1803 | For a rule without STUDIO_DOMINATE the two agree exactly when the lowest and the highest number left are equal, so always when one is left |
| FlexRules.TwoLeftDiffer | server_src/public/studio.cpp:1564-1801 | A rule that leaves two numbers, with different values in the two |
| FlexRules.RunBoth | server_src/public/studio.cpp:1806-1826 | Running both on such rules fills two equal arrays |
| FlexRules.RunFlexRulesOld | server_src/public/studio.cpp:1366-1566 | The direct interpreter computes the meaning of the rules, earlier results included, whatever they leave on the stack: the lowest number is the result |
| FlexRules.RunFlexRulesNew | server_src/public/studio.cpp:1568-1803 | The interpreter that keeps the top of the stack aside computes the meaning of the rules, whatever they leave on the stack: the highest number is the result |
| FlexRules.OpOld | server_src/public/studio.cpp:1388-1562 | Each case does to the stack what the opcode means |
| FlexRules.OpNew | server_src/public/studio.cpp:1586-1797 | The same with the top kept in a variable |
| FlexRules.CombineOld | server_src/public/studio.cpp:1419-1428 | STUDIO_COMBO multiplies the top m entries |
| FlexRules.CombineNew | server_src/public/studio.cpp:1647-1657 | The same product, taken from the top down |
| FlexRules.SameExec | server_src/public/studio.cpp:1366-1803 | From any stack, the new interpreter computes the stack of the old one above the zero its register starts with |
| FlexRules.SameStep | server_src/public/studio.cpp:1388-1797 | An opcode that has its operands does not notice what is under them |
| FlexRules.DominateAgrees | server_src/public/studio.cpp:1430-1441 | The two readings of STUDIO_DOMINATE agree exactly when the value suppressed by one equals that of the other |
| FlexRules.DominateDiffers | server_src/public/studio.cpp:1659-1670 | A rule on which they differ |
| ActivityMap.ActivityMapping.Initialize | server_src/public/studio.cpp:1840-1989 | The mapping answers like a full scan; a mapping already made is left alone |
| ActivityMap.ActivityMapping.GetSequences | server_src/public/studio.cpp:2007-2029 | The slice lists exactly the sequences of the activity in increasing order, with the sum of their absolute weights |
| ActivityMap.ActivityMapping.NumSequencesForActivity | server_src/public/studio.cpp:2031-2049 | The number a full scan counts |
| ActivityMap.CountSequences | server_src/public/studio.cpp:1862-1898 | Counts and weights per activity |
| ActivityMap.AssignSlices | server_src/public/studio.cpp:1904-1916 | Whatever the order of the hash, the slices are laid end to end |
| ActivityMap.FillTuples | server_src/public/studio.cpp:1936-1977 | Every slice is filled, in order, with its own sequences |
| ActivityMap.SlicesDisjoint | server_src/public/studio.cpp:1904-1916 | No two slices overlap |
| ActivityMap.SlicesCover | server_src/public/studio.cpp:1922-1924 | Together they are as long as the array |
| ActivityMap.ScanFinds | server_src/public/studio.cpp:1941-1977 | The scan lists exactly the sequences with the activity, in order |
| ActivityMap.ShortFits | server_src/public/studio.cpp:1972-1973 | The 16-bit fields lose nothing exactly when the number fits |
| SoundDelta.ListBack | server_src/public/soundinfo.h:159-365 | Over any list of in-range sounds with any adjusted delays, each coded against the one before at both ends, the reader consumes exactly what was written and every field stands; only delays can be wrong and this does not spread |
| SoundDelta.SoundBack | server_src/public/soundinfo.h:159-365 | One sound with any delay: exactly its bits are consumed and what the reader holds stands for the next baseline, with the delay it saw |
| SoundDelta.ListRight | server_src/public/soundinfo.h:159-365 | The whole list is read right, delays included, exactly when no sound is sent with the unadjusted delay of the one before it while that one was sent with another |
| SoundDelta.DelaysRight | server_src/public/soundinfo.h:224-239 | The same for the delays alone |
| SoundDelta.StandsWithin | server_src/public/soundinfo.h:21-61 | Standing for a sound means equal fields, origins within 8 units and volume within 1/127 |
| SoundDelta.DelayRight | server_src/public/soundinfo.h:224-239 | Within a list, the delay of one sound is read right exactly when it differs from the unadjusted delay of the one before or the reader already holds it |
| SoundDelta.KeepsOldDelay | server_src/public/soundinfo.h:224-239 | Two sounds of which the second is read with the adjusted delay of the first, whatever that was |
| SoundDelta.SoundInfo.WriteDelta | server_src/public/soundinfo.h:159-269 | The bits of both halves, and a stop clears the record |
| SoundDelta.SoundInfo.WriteHead | server_src/public/soundinfo.h:159-190 | The fields every sound has |
| SoundDelta.SoundInfo.WriteTail | server_src/public/soundinfo.h:190-265 | The fields a stop leaves out |
| SoundDelta.SoundInfo.ReadDelta | server_src/public/soundinfo.h:271-365 | The object ends up as the decoded sound and the buffer behind it |
| SoundDelta.SoundInfo.ReadRest | server_src/public/soundinfo.h:300-361 | The fields a stop leaves out |
| SoundDelta.CoordBack | server_src/public/soundinfo.h:44-61 | A coordinate comes back as the baseline or rounded to eight units |
| BitVec.FindNextSetBit | server_src/public/bitvec.h:946-1060 | The least member from startBit on, or -1 when there is none, whatever lies past the end; for sizes that are multiples of 32 too |
| BitVec.VarBitVec.NextSetBit | server_src/public/bitvec.h:946-1000 | The same for a vector, wherever its words live |
| BitVec.FirstBitInWord | server_src/public/bitvec.h:44-100 | The lowest bit of a word, plus the offset, or -1 |
| BitVec.LutRight | server_src/public/bitvec.h:62-72 | The byte table gives the lowest bit of every byte |
| BitVec.StartMaskHas | server_src/public/bitvec.h:905-944 | The start mask keeps the bits from startBit on |
| BitVec.EndMaskHas | server_src/public/bitvec.h:102-141 | The end mask keeps the bits the last word has |
| BitVec.VarBitVec.Resize | server_src/public/bitvec.h:1279-1318 | Every member that still fits stays, every new bit is clear, across inline and heap storage; or all is cleared |
| BitVec.VarBitVec.ReallocInts | server_src/public/bitvec.h:1344-1373 | The words common to both sizes are kept and the storage kind fits the size |
| BitVec.VarBitVec.AllocInts | server_src/public/bitvec.h:1323-1337 | Storage of the right kind, contents arbitrary |
| BitVec.GrowKeeps | server_src/public/bitvec.h:1289-1305 | Masking the old last word and zeroing the rest is enough |
| BitVec.ShrinkKeeps | server_src/public/bitvec.h:1279-1318 | A smaller vector keeps its members below the new size |
| BitVec.VarBitVec.SetTo | server_src/public/bitvec.h:637-649 | Exactly one member comes or goes |
| BitVec.VarBitVec.IsBitSet | server_src/public/bitvec.h:594-599 | Membership |
| BitVec.VarBitVec.constructor | server_src/public/bitvec.h:435-438 | The empty set |

## Left out

- Deflate.Compress: for an input in `AtRisk` but not in `Caught` it does not say whether the error is raised: it depends on where the window slides or a turn starts, and so on the matches found throughout the input; `Deflate.Step` gives the exact condition turn by turn.
- Huffman.Build: says nothing about how close to the cheapest code the lengths are once the longest had to be cut; the source only claims a good approximation.
- MemoryZip.TZip.Add: for a deflated entry between `Caught` and `AtRisk` the false alarm of the matcher is not decided, as in `Deflate.Compress`; and between the exact size and the largest possible one, whether it fits is not stated.
- MemoryZip.TZip.AddEntry: the same.
- MemoryZip.TZip.IDeflate: hands the compressed bytes to the archive in one write. When they do not fit, what the source has written of them by then is not modelled; in both the write error is set and no further file is accepted.
- MemoryZip.TZip.GetMemory: after a write error only the error is specified, not the bytes in memory.
- Window.Reader.Read: the reader never fails and the checksum is taken in `MemoryZip` instead of inside the read.
- ZipArchive.ZipFile.ParseFromBuffer: a buffer that is no archive makes the source read outside it; the model reports failure there.
- ZipArchive.RoundTrip: requires an end record that cannot be mistaken, since the search is wrong otherwise (`ZipArchive.EndFoundIff`); the order of the entries is the order read.
- ZipArchive.SaveAndParse: the same premise on the end record.
- ZipArchive.ZipFile.InsertFiles: keeps the entries in the order read, not in the order of the tree.
- FlexRules.RunFlexRulesOld: rules that read outside the stack or the tables, combine no values or push none are undefined in the source and excluded; numbers are real, so rounding is not modelled.
- FlexRules.RunFlexRulesNew: the same, except that the zero in the register counts as a value.
- ActivityMap.ActivityMapping.Initialize: activity modifiers, validation data and the check of available sequences are not part of it.
- SoundDelta.SoundInfo.WriteDelta: the delay is a 32-bit word that is compared and copied as such (a negative zero and a NaN are words like any other), and the delay after tick adjustment is a parameter. Volumes and origins are real numbers.
- BitVec.FindNextSetBit: stands for both classes, which repeat the loop; the word loaded past the end in the multiple-of-32 path is not loaded in the model. The compiler's bit-scan instruction is the lowest bit, as the byte table computes it.
- Compression levels other than 8 and `deflate_fast`: `ideflate` fixes level 8.
- The in-memory mode of the bit buffer (`flush_flg` false) and a failing output flush inside the compressor.
- `set_file_type`: never reached, since the file type is given as binary.
- The trace output, `putextended` and unseekable output.
- Files, handles, pipes, attributes and the clock: the archive takes bytes in memory or a folder; times are parameters.
- The integer widths of `opt_len`, `static_len`, `bits_sent` and other 32-bit totals: unbounded here. The 16-bit fields of trees and headers and the 16-bit buffer are modelled.
- That the entries of `crc_table` are the remainders of the CRC polynomial: they are taken as they are.
- The disk cache, byte swapping, update format 3, the tree order and case folding beyond ASCII in `CZipFile`; comments of 128 bytes and more; signs in the number the comment carries. The checksum there is a parameter.
- `Attach`, `Detach`, copying and the whole-vector operations of the bit vector.
- Skeletal accessors, ray tracing, networking tables and file-system wrappers: nothing beyond single expressions or declarations.
