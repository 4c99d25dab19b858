# Verified core of the Air105 SDK

This project models the algorithmic core of the SDK in Dafny and proves what it is for:

- **BGET heap** (`Bget*.dfy`). Best fit with boundary tags and a linked free list. The memory is
  a map of words; an invariant ties it to a layout of blocks. Block headers, back links and the
  free list stay in step through every call, in every combination of free neighbours, and the
  layout is determined by the live blocks alone.
- **JPEG entropy coder** (`Jpeg*.dfy`, `BitStrings.dfy`). Canonical Huffman tables, variable
  length integers, run lengths, bit packing, byte stuffing and the capped output buffer. A decoder
  written after ITU-T T.81 section F.2.2 reads back every scan. What `jpeg_encode_end` makes of the
  last bits is settled exactly: the finished file decodes if and only if no bit is waiting. Code
  words of the shipped tables and a scan are written out.
- **Adaptive binarizer** (`Binarize*.dfy`). Sliding sums compute the sum over a rectangle of
  pixels; the in-place variant computes the same mask while it overwrites the image it reads; what
  the mask says of flat images, bright pixels and dark ones.
- **Code 128 back end** (`Code128*.dfy`). The checksum without multiplication and what it detects;
  the in-place conversion to text against a recursive decoder, in both scan directions; the scan as
  a state machine; the exact condition under which set C expansion stays inside the buffer; and what
  each code means, in numbers.
- **ISAAC generator** (`Isaac*.dfy`). The state transition, the mixing and the seeding are
  invertible; their steps in numbers; and rejection sampling is unbiased.
- **Small printf** (`Printf*.dfy`). The `snprintf` contract; for all values, flags, widths and
  precisions, with and without `#`, exactly when an integer conversion reads back and exactly when
  it has the length that C11 asks for; the base, sign and field of every conversion; and the inverse
  of directive parsing.
- **Dirty-band frame buffer** (`LcdBand.dfy`). Sending the touched rows only keeps the panel equal
  to immediate drawing.

`Arith.dfy` holds bytes, repeated elements, and facts about products and powers of two.

Methods follow the loops and stores of the C code and are proved against specification functions;
lemmas prove what those functions mean. Objects that the code updates in place are classes with an
invariant `Valid()`. Words and counters are integers, and wrap-around, truncation and the 32-bit
bit buffer are written out where the code depends on them. In `code128.c` a failing `zassert`
returns an error, as in the active branch of `debug.h`.

## Model

| member | source | states |
|---|---|---|
| `BgetHeap.Heap.constructor` | Third_Party/heap/bget.c:524-533 | The initial free list is a ring of the list head alone; nothing allocated, all counters zero; this satisfies the heap invariant `Valid`. |
| `BgetHeap.Heap.Bpool` | Third_Party/heap/bget.c:994-1055 | Adding a pool keeps the heap invariant: the pool becomes one free block of its length rounded down to 8, minus the header, and an end sentinel; it goes to the end of the free list; no payload and no counter changes. |
| `BgetHeap.Heap.FindBest` | Third_Party/heap/bget.c:616-629 | The scan of the linked list returns the list head when no free block holds the size, otherwise the first of the smallest blocks that do. |
| `BgetHeap.NeedIsLeast` | Third_Party/heap/bget.c:591-600 | The size taken for a request is the least multiple of 8 that is at least 16 and at least the request plus 8. |
| `BgetHeap.Heap.Carve` | Third_Party/heap/bget.c:643-667 | The tail of a larger free block becomes live: the layout is split, the free list keeps its order, no live payload changes, `totalloc`, `maxalloc` and `numget` follow. |
| `BgetHeap.Heap.TakeWhole` | Third_Party/heap/bget.c:668-700 | A free block becomes live as a whole and leaves the free list; no live payload changes, the counters follow. |
| `BgetHeap.Heap.Bget` | Third_Party/heap/bget.c:573-764 | NULL exactly for size 0 or when no free block holds the request and 8 bytes, and then nothing changes; otherwise a best fit, 8-aligned, not live before: the tail of it of exactly the size needed, or all of it when at most 16 bytes would be left; all live payloads keep their contents; `maxalloc` is the running maximum. |
| `BgetHeap.Heap.Bgetz` | Third_Party/heap/bget.c:770-792 | As `bget`, its counters included, and every word of the granted payload is zero, also behind the requested size; other payloads unchanged. |
| `BgetHeap.Heap.Bgetr` | Third_Party/heap/bget.c:799-828 | NULL exactly when the new size cannot be had, and then memory, layout and counters are unchanged; otherwise the first min(old, new) bytes are those of the old buffer, the old block is released, all other payloads keep their contents. |
| `BgetHeap.Heap.MoveData` | Third_Party/heap/bget.c:811-827 | After a new block was granted: the old size is read from the header, the smaller number of bytes is copied, the old block released; the new buffer holds what the old one held before the grant, and all other payloads are as they were then. |
| `BgetHeap.Heap.MoveAndRelease` | Third_Party/heap/bget.c:824-827 | Copying to a new buffer and releasing the old one keeps the invariant and every payload but the two; the new buffer holds the bytes the old one had. |
| `BgetHeap.Heap.Brel` | Third_Party/heap/bget.c:832-977 | Releasing a live block keeps the invariant, takes exactly that block from the live ones, subtracts its size from `totalloc` and changes no other live payload; the free list keeps its order, gains the block at its end unless a free block is in front of it, and loses a free block behind it; a null pointer only counts. |
| `BgetHeap.Heap.Bstats` | Third_Party/heap/bget.c:1061-1078 | The free list traversal reports the bytes of all live and all free blocks, which add up to the capacity of the pools, and the largest free block, -1 if there is none. |
| `BgetHeap.Heap.Bstatsmaxget` | Third_Party/heap/bget.c:1080-1083 | In every reachable state reports the largest of all values that `totalloc` has had, the last of which is the bytes now allocated. |
| `BgetHeap.Heap.Bpoolv` | Third_Party/heap/bget.c:1213-1252 | On any memory whose size words are right the validator terminates and accepts a pool exactly when the neighbours of each free block link back to it; in a valid heap they do. |
| `BgetMemory.GetSplitKeeps` | Third_Party/heap/bget.c:643-667 | The header stores of the splitting branch keep block headers, back links and free list in step with the split layout, and touch no live payload. |
| `BgetMemory.GetWholeKeeps` | Third_Party/heap/bget.c:668-700 | The unlink and header stores of the other branch keep the three views in step with the layout in which the block is live. |
| `BgetMemory.ReleaseKeeps` | Third_Party/heap/bget.c:866-950 | The stores of `brel`, in all four combinations of free neighbours, turn a memory that represents a layout into one that represents the layout with the block released and coalesced on both sides. |
| `BgetMemory.PoolInitKeeps` | Third_Party/heap/bget.c:1025-1054 | The stores of `bpool` represent the layout with the new pool. |
| `BgetMemory.HeaderWords` | Third_Party/heap/bget.c:489-498 | The two header words of every block: the size of a free block in front of it or 0, and its own size with a sign for free or live, or the end mark. |
| `BgetMemory.ListIsFree` | Third_Party/heap/bget.c:518-527 | Following the forward links in memory from the list head visits exactly the free blocks, once each, and returns to the head; each backward link undoes a forward link. |
| `BgetMemory.UnlinkLinks` | Third_Party/heap/bget.c:679-680 | Unlinking a node leaves a ring with mutually inverse links over the other nodes, in order. |
| `BgetMemory.AppendLinks` | Third_Party/heap/bget.c:907-910 | Linking a block behind the last node leaves a ring with mutually inverse links. |
| `BgetLayout.TilesExactly` | Third_Party/heap/bget.c:1044-1054 | The blocks of a well-formed layout cover each byte of each pool exactly once, and nothing else. |
| `BgetLayout.SplitWf` | Third_Party/heap/bget.c:643-656 | Splitting a free block keeps the layout well formed and makes exactly the carved block live. |
| `BgetLayout.TakeWf` | Third_Party/heap/bget.c:690-695 | Making a free block live keeps the layout well formed. |
| `BgetLayout.ReleaseWf` | Third_Party/heap/bget.c:884-950 | Two-sided coalescing keeps the layout well formed, so that no two free blocks touch, and takes exactly the released block from the live ones. |
| `BgetLayout.AddPoolWf` | Third_Party/heap/bget.c:994-1055 | A pool apart from the others keeps the layout well formed. |
| `BgetLayout.LayoutIsCanonical` | Third_Party/heap/bget.c:932-950 | The live blocks determine the layout: two well-formed layouts of the same pools with the same live blocks are equal. |
| `BgetRuns.PayloadsAreDisjoint` | Third_Party/heap/bget.c:643-699 | Live payloads are 8-aligned, pairwise disjoint and inside a pool, in front of its sentinel. |
| `BgetRuns.FreeBlockIsMaximalGap` | Third_Party/heap/bget.c:884-940 | A free block starts at a pool base or right behind a live block and ends at a live block or a sentinel. |
| `BgetRuns.ReleaseOrderIrrelevant` | Third_Party/heap/bget.c:886-950 | Two runs that release the same set of blocks in any order end in the same layout. |
| `BgetRuns.ReleaseUndoesGet` | Third_Party/heap/bget.c:832-977 | `brel` right after `bget` restores the layout. |
| `BgetRuns.GetAndRelease` | Third_Party/heap/bget.c:573-977 | Calling `bget` and then `brel` on any heap gives back the same layout and the same `totalloc`, and changes no live payload. |
| `BgetRuns.Empty` | Third_Party/heap/bget.c:832-977 | Releasing all live buffers, in any order, gives each pool back as one free block. |
| `BgetRuns.AllReleased` | Third_Party/heap/bget.c:1036-1054 | With everything released each pool is one free block and its sentinel again; neighbouring pools are never merged. |
| `BgetBytes.SplitBytes` | Third_Party/heap/bget.c:651-659 | Splitting moves bytes from free to live and loses none. |
| `BgetBytes.ReleaseBytes` | Third_Party/heap/bget.c:880-950 | Releasing moves the bytes of the block from live to free, whatever is coalesced. |
| `BgetBytes.SumToIsBytes` | Third_Party/heap/bget.c:1070-1077 | The sum over the free list is the sum over all free blocks. |
| `JpegHuffman.GetCodeLengths` | Third_Party/jpeg_encode/tiny_jpeg.c:339-349 | The size list holds each length as often as BITS says, in order, closed by a zero. |
| `JpegHuffman.GetCodes` | Third_Party/jpeg_encode/tiny_jpeg.c:352-370 | For every non-empty BITS list within the Kraft bound the loops terminate and code k is the k-th canonical code of T.81 section C.2, with 16-bit arithmetic. |
| `JpegHuffman.GetExtended` | Third_Party/jpeg_encode/tiny_jpeg.c:372-385 | Each symbol gets the size and the code of its position. |
| `JpegHuffman.Expand` | Third_Party/jpeg_encode/tiny_jpeg.c:700-740 | The derived table gives each symbol its canonical code and length. |
| `JpegHuffman.CodeFits` | Third_Party/jpeg_encode/tiny_jpeg.c:352-370 | Code k is below two to its length. |
| `JpegHuffman.EqualLengthConsecutive` | Third_Party/jpeg_encode/tiny_jpeg.c:357-361 | Codes of equal length are consecutive numbers. |
| `JpegHuffman.PrefixFree` | Third_Party/jpeg_encode/tiny_jpeg.c:352-370 | No code is a prefix of another one, compared as bit strings. |
| `JpegHuffman.SymbolRoundTrip` | Third_Party/jpeg_encode/tiny_jpeg.c:652-672 | The decoder of T.81 section F.2.2.3 reads back every symbol from the bits of the derived table, and leaves the rest. |
| `JpegBlocks.VariableLengthInt` | Third_Party/jpeg_encode/tiny_jpeg.c:391-403 | Bit count and bits of the magnitude category of T.81; value 0 gives one bit. |
| `JpegBlocks.VliRoundTrip` | Third_Party/jpeg_encode/tiny_jpeg.c:391-403 | EXTEND of T.81 section F.2.2.1 recovers every non-zero value from its category and bits. |
| `JpegCodeWords.AppendedBits` | Third_Party/jpeg_encode/tiny_jpeg.c:391-403 | A positive value is appended as it is, a negative one as the complement of its magnitude. |
| `JpegBlocks.DcRoundTrip` | Third_Party/jpeg_encode/tiny_jpeg.c:624-637 | The DC decoder reads back every difference of category at most 11. |
| `JpegBlocks.AcRoundTrip` | Third_Party/jpeg_encode/tiny_jpeg.c:639-680 | The AC decoder completes the block from any point of the encoding: runs of 16 zeros, values, end of block or its omission. |
| `JpegBlocks.BlockRoundTrip` | Third_Party/jpeg_encode/tiny_jpeg.c:624-680 | Decoding the bits of a block, followed by anything, gives back the 64 coefficients and what follows. |
| `JpegWriter.Writer.Write` | Third_Party/jpeg_encode/tiny_jpeg.c:268-289 | Delivered chunks plus buffer grow by exactly the bytes written; the buffer is never full between calls and each delivered chunk has 1023 bytes. |
| `JpegWriter.Writer.PutByte` | Third_Party/jpeg_encode/tiny_jpeg.c:420-431 | A byte of the scan is followed by a zero byte exactly when it is 0xFF. |
| `JpegWriter.Writer.WriteBits` | Third_Party/jpeg_encode/tiny_jpeg.c:406-436 | The pushed bits are appended to all bits pushed before; fewer than 8 bits wait and the unused bits of the bit buffer are zero. |
| `JpegWriter.PushStep` | Third_Party/jpeg_encode/tiny_jpeg.c:418-420 | Or-ing the shifted bits into the 32-bit buffer appends them below the ones that are there. |
| `JpegWriter.PopStep` | Third_Party/jpeg_encode/tiny_jpeg.c:421-434 | Taking the top byte off the buffer removes the first 8 waiting bits. |
| `JpegBits.UnstuffStuffed` | Third_Party/jpeg_encode/tiny_jpeg.c:424-430 | Dropping the zero behind each 0xFF undoes the stuffing, for every byte string. |
| `JpegBits.StuffedHasNoMarkers` | Third_Party/jpeg_encode/tiny_jpeg.c:426-430 | In stuffed data every 0xFF is followed by a zero byte, so no marker can appear. |
| `JpegScan.WriteSymbol` | Third_Party/jpeg_encode/tiny_jpeg.c:672-672 | A code of the derived table is appended to the pushed bits. |
| `JpegScan.EncodeDc` | Third_Party/jpeg_encode/tiny_jpeg.c:626-637 | Pushes the bits of the DC difference. |
| `JpegScan.EncodeAc` | Third_Party/jpeg_encode/tiny_jpeg.c:639-680 | The search for the last coefficient, the run loops and the end-of-block symbol push exactly the AC bits of the block. |
| `JpegScan.EncodeBlock` | Third_Party/jpeg_encode/tiny_jpeg.c:624-680 | Pushes the bits of the block and updates the DC predictor. |
| `JpegScan.ScanEncoder.constructor` | Third_Party/jpeg_encode/tiny_jpeg.c:700-740 | A new encoder with derived tables, nothing written, satisfies the invariant. |
| `JpegScan.ScanEncoder.EncodeMcu` | Third_Party/jpeg_encode/tiny_jpeg.c:1224-1251 | One block of each component with its own predictor; the pushed bits remain those of all MCUs so far. |
| `JpegScan.ScanEncoder.Run` | Third_Party/jpeg_encode/tiny_jpeg.c:1185-1255 | The block loop over a strip of the image keeps that invariant and appends the strip. |
| `JpegScan.ScanRoundTrip` | Third_Party/jpeg_encode/tiny_jpeg.c:624-680 | Decoding the bits of any sequence of MCUs gives back the sequence, with DC prediction. |
| `JpegScan.ScanReadable` | Third_Party/jpeg_encode/tiny_jpeg.c:406-436 | In every state the encoder can reach, the bytes since the header, unstuffed, followed by the waiting bits, decode to exactly the MCUs that were encoded; the bytes contain no marker. |
| `JpegTables.DefaultSpecsOk` | Third_Party/jpeg_encode/tiny_jpeg.c:85-142 | The four shipped tables are within the Kraft bound, without repeated symbols, and complete for what the encoder writes, so the round trip holds of the shipped encoder. |
| `JpegCodeWords.LumaDcWords` | Third_Party/jpeg_encode/tiny_jpeg.c:85-97 | The twelve code words of T.81 table K.3. |
| `JpegCodeWords.ChromaDcWords` | Third_Party/jpeg_encode/tiny_jpeg.c:99-108 | The twelve code words of T.81 table K.4. |
| `JpegCodeWords.LumaAcWords` | Third_Party/jpeg_encode/tiny_jpeg.c:111-129 | Code words of T.81 table K.5, among them end of block and sixteen zeros. |
| `JpegCodeWords.ChromaAcWords` | Third_Party/jpeg_encode/tiny_jpeg.c:130-142 | Code words of T.81 table K.6, among them end of block and sixteen zeros. |
| `JpegCodeWords.SampleScan` | Third_Party/jpeg_encode/tiny_jpeg.c:579-656 | The bits of two equal MCUs, written out: tables, order of the components, runs and DC prediction. |
| `JpegEnd.EncodeEnd` | Third_Party/jpeg_encode/tiny_jpeg.c:1257-1268 | EOI is appended and the last partial chunk delivered, all others having 1023 bytes; the delivered file, cut at the marker and unstuffed, decodes to the MCUs if and only if no bit was waiting in the bit buffer, and does not decode at all otherwise. |
| `JpegEnd.FinishedFile` | Third_Party/jpeg_encode/tiny_jpeg.c:1257-1268 | The same of all bytes written with EOI behind them, in every state the encoder can reach. |
| `JpegEnd.SegmentEnds` | Third_Party/jpeg_encode/tiny_jpeg.c:424-430 | The entropy-coded segment that a decoder cuts off in front of the marker is the stuffed data. |
| `JpegEnd.FlatImage` | Third_Party/jpeg_encode/tiny_jpeg.c:1257-1268 | A concrete image, one flat grey MCU with the shipped tables: 6 bits are waiting at the end, and the delivered file does not decode. |
| `JpegEnd.WaitingBits` | Third_Party/jpeg_encode/tiny_jpeg.c:412-435 | The number of waiting bits is the length of the scan in bits modulo 8. |
| `JpegEnd.ScanMore` | Third_Party/jpeg_encode/tiny_jpeg.c:624-680 | A decoder that succeeds leaves the bits behind what it read untouched. |
| `Binarize.QrBinarize` | Third_Party/ZBAR/src/binarize.c:523-600 | The sliding sums compute, for every pixel, the threshold against the two-dimensional window sum with clamped coordinates; null exactly for an empty image. |
| `Binarize.QrBinarize2` | Third_Party/ZBAR/src/binarize.c:602-717 | The image itself ends up as the mask of the image it held, although mask rows overwrite source rows through a ring of windh / 2 + 2 rows. |
| `Binarize.MaskIsUnique` | Third_Party/ZBAR/src/binarize.c:602-717 | An image has one mask, so both functions compute the same. |
| `Binarize.InitColumns` | Third_Party/ZBAR/src/binarize.c:544-556 | The initial column sums count the rows above the image as its first row. |
| `Binarize.NextColumns` | Third_Party/ZBAR/src/binarize.c:579-587 | Removing one row and adding one gives the column sums of the next image row; no sum goes below zero. |
| `Binarize.FirstWindow` | Third_Party/ZBAR/src/binarize.c:560-566 | The sum at the left edge is the clamped window sum. |
| `Binarize.ScanRow` | Third_Party/ZBAR/src/binarize.c:560-578 | One row of the mask, and nothing else, is written; the unsigned update of the window sum gives the exact sum. |
| `Binarize.SumBounds` | Third_Party/ZBAR/src/binarize.c:574-578 | Column sums are at most 0xFF00 and window sums at most 0xFF0000, so 32 bits suffice. |
| `Binarize.WindowIsLeast` | Third_Party/ZBAR/src/binarize.c:540-543 | The window is the least power of two from 16 to 256 that covers an eighth of the extent, or 256. |
| `BinarizeMeaning.WindowIs` | Third_Party/ZBAR/src/binarize.c:540-543 | The window is 16, 32, 64, 128 or 256 for extents up to 128, 256, 512, 1024 and above. |
| `BinarizeMeaning.WindowIsTotal` | Third_Party/ZBAR/src/binarize.c:544-587 | The column-wise window sum is the sum over a rectangle of pixels, row by row. |
| `BinarizeMeaning.MaskMeans` | Third_Party/ZBAR/src/binarize.c:568-571 | A mask entry is 255 or 0, and 255 exactly when the pixel plus 3, times the area, is below the sum over its window. |
| `BinarizeMeaning.BrightPixel` | Third_Party/ZBAR/src/binarize.c:568-571 | A pixel that is not darker than any pixel in its window is not set. |
| `BinarizeMeaning.FlatMask` | Third_Party/ZBAR/src/binarize.c:568-571 | A flat image has no set pixel. |
| `BinarizeMeaning.DarkPixel` | Third_Party/ZBAR/src/binarize.c:568-571 | A pixel away from the border that is darker by more than 3 than all others in its window is set. |
| `Binarize.LineSumSlide` | Third_Party/ZBAR/src/binarize.c:574-578 | Moving a clamped window by one place adds one entry and removes one. |
| `Binarize.RingStep` | Third_Party/ZBAR/src/binarize.c:645-674 | A mask row put into the ring overwrites none that still waits, as long as fewer rows wait than the ring has. |
| `Binarize.WriteBack` | Third_Party/ZBAR/src/binarize.c:684-695 | Copying the oldest waiting row over its source row leaves all later source rows as they were. |
| `Binarize.Drain` | Third_Party/ZBAR/src/binarize.c:697-709 | After the last image row all waiting rows are written in order. |
| `Code128Check.TailsAreWeights` | Third_Party/ZBAR/src/code128.c:242-261 | The sum of running sums is the sum of the codes weighted by their position. |
| `Code128.Decoder.ValidateChecksum` | Third_Party/ZBAR/src/code128.c:230-268 | An accepted buffer has a check code congruent to the weighted sum; for data codes below 103 it is accepted exactly when the check code is the weighted sum modulo 103, in both directions; fewer than 3 codes are rejected. |
| `Code128Check.SubstitutionDetected` | Third_Party/ZBAR/src/code128.c:230-268 | A symbol and the same symbol with one other data code, at a weight that is no multiple of 103, are not both accepted. |
| `Code128Check.SubstitutionMissed` | Third_Party/ZBAR/src/code128.c:230-268 | At a weight that is a multiple of 103 the change never matters. |
| `Code128Check.SwapDetected` | Third_Party/ZBAR/src/code128.c:230-268 | A symbol and the same symbol with two unequal neighbouring data codes swapped are not both accepted. |
| `Code128Check.NoZeroProduct` | Third_Party/ZBAR/src/code128.c:230-268 | 103 is prime: no product of two numbers below it is a multiple. |
| `Code128.Decoder.SizeBuf` | Third_Party/ZBAR/include/decoder.h:181-202 | The growth contract: fails exactly above BUFFER_MAX, grows by at least BUFFER_INCR or to the maximum, keeps the contents. |
| `Code128.Decoder.PostprocessC` | Third_Party/ZBAR/src/code128.c:271-316 | The codes from start to end become their digits at dst; all other codes are kept and moved up; it stays inside the buffer exactly when the expanded length is at most BUFFER_MAX. |
| `Code128.Decoder.WriteDigits` | Third_Party/ZBAR/src/code128.c:290-313 | The comparisons write the two decimal digits of a code, and neither assertion can fail. |
| `Code128.Decoder.ReverseBuffer` | Third_Party/ZBAR/src/code128.c:325-333 | Swapping in place reverses the codes. |
| `Code128.Decoder.Convert` | Third_Party/ZBAR/src/code128.c:347-424 | The in-place loop leaves the text of the recursive decoder at the front of the buffer, or fails where that fails, without overwriting a code it has not read. |
| `Code128.Decoder.Postprocess` | Third_Party/ZBAR/src/code128.c:319-425 | In both directions the result is the text of the symbol, terminated by a zero, or an error exactly when the symbol has none; the buffer suffices exactly when codes plus pairs are at most BUFFER_MAX. |
| `Code128.ProgressExpand` | Third_Party/ZBAR/src/code128.c:373-383 | An expansion of pending codes keeps the loop invariant: text so far, codes unread, and writing behind reading. |
| `Code128.ProgressLetter` | Third_Party/ZBAR/src/code128.c:361-370 | So does writing the character of a code of set A or B, shift included. |
| `Code128.ProgressControl` | Third_Party/ZBAR/src/code128.c:384-412 | So do shift, code set switches and function codes. |
| `Code128Text.TextCodes` | Third_Party/ZBAR/src/code128.c:394-397 | Only symbols whose codes are all below 103 have a text. |
| `Code128Text.TextLength` | Third_Party/ZBAR/src/code128.c:351-424 | A text is at most as long as the codes plus the pairs. |
| `Code128Meaning.LetterMeans` | Third_Party/ZBAR/src/code128.c:361-370 | Codes below 96 are the characters 32 to 95 and 0 to 31 in set A, and 32 to 127 in set B. |
| `Code128Meaning.PairMeans` | Third_Party/ZBAR/src/code128.c:271-316 | A code below 100 is its two decimal digits in set C. |
| `Code128Meaning.ThenRest` | Third_Party/ZBAR/src/code128.c:351-370 | A character or pair is followed by what the remaining codes mean. |
| `Code128Meaning.ShiftMeans` | Third_Party/ZBAR/src/code128.c:385-388 | Code 98 reads the next character in the other one of the sets A and B, and only that one. |
| `Code128Meaning.SwitchMeans` | Third_Party/ZBAR/src/code128.c:398-408 | Codes 99, 100 and 101 switch to the sets C, B and A. |
| `Code128Meaning.NothingMeant` | Third_Party/ZBAR/src/code128.c:385-397 | Codes 96, 97 and 102 add nothing, and codes above 102 do not belong into a text. |
| `Code128Meaning.SymbolMeans` | Third_Party/ZBAR/src/code128.c:319-349 | The start codes 103, 104 and 105 select the sets A, B and C. |
| `Code128.Decoder.Finish` | Third_Party/ZBAR/src/code128.c:497-512 | Found exactly when checksum, text and length limits are right, and then the buffer holds the text; the lock is released otherwise. |
| `Code128.Decoder.Feed` | Third_Party/ZBAR/src/code128.c:427-516 | One decoded character moves the scan on as the transition function says, in every state; the buffer index stays below the allocation; with data codes below 103, an expansion that does not fit is reached exactly when the check code is right. |
| `Code128.Decoder.Element` | Third_Party/ZBAR/src/code128.c:427-516 | One scanned element: nothing but the count changes until the last element of a character, six after a start code and seven after a leading stop code; then the scan moves on as the transition function says, with the quiet zone computed from the widths and the same condition for an overflow. |
| `Code128Scan.StillReading` | Third_Party/ZBAR/src/code128.c:427-516 | From idle, a start character followed by characters that do not complete the symbol is collected in full. |
| `Code128Scan.BothDirections` | Third_Party/ZBAR/src/code128.c:427-516 | A symbol scanned from its start code and from its stop code gives the same result, its text when the check code is right. |
| `Code128Meaning.StartMeans` | Third_Party/ZBAR/src/code128.c:447-473 | A scan starts with 103, 104 or 105, or backwards with 107. |
| `Code128Meaning.EndMeans` | Third_Party/ZBAR/src/code128.c:474-496 | It ends with 106, or backwards with 103, 104 or 105, with an unknown character, or after 256 codes. |
| `Code128Meaning.QuietMeans` | Third_Party/ZBAR/src/code128.c:454-458 | The width of the quiet zone that is asked for. |
| `Code128Meaning.LimitsMean` | Third_Party/ZBAR/src/code128.c:500-506 | The limits of the length. |
| `Code128Meaning.CheckMeans` | Third_Party/ZBAR/src/code128.c:230-268 | The check code of a symbol with two data codes, written out. |
| `Code128Meaning.LetterSymbol` | Third_Party/ZBAR/src/code128.c:427-516 | A symbol with the letter a, scanned forwards and backwards. |
| `Code128Scan.DigitsThatFit` | Third_Party/ZBAR/src/code128.c:277-280 | A symbol of code set C alone has room for its expansion exactly when it has at most 126 data codes. |
| `Code128Scan.LongSymbol` | Third_Party/ZBAR/src/code128.c:277-283 | A concrete symbol with the right check code, 127 times the pair 00, whose codes the scan accepts and whose stop code makes the expansion overflow. |
| `IsaacState.UpdateIsBijection` | Third_Party/ZBAR/src/isaac.c:13-64 | `isaac_update` has a two-sided inverse on m, a, b, c: the previous state is determined through all 256 steps. |
| `IsaacState.StepBackStep` | Third_Party/ZBAR/src/isaac.c:26-29 | One step can be undone although it overwrites the word it started from and reads where the data says. |
| `IsaacState.StepStepBack` | Third_Party/ZBAR/src/isaac.c:26-29 | Every state is the result of one step from some state. |
| `IsaacState.StatesNeverMerge` | Third_Party/ZBAR/src/isaac.c:13-64 | Different states stay different under any number of updates. |
| `IsaacState.UnfoldFold` | Third_Party/ZBAR/src/isaac.c:27-39 | Xor with a shifted copy of a word is undone by folding by twice the distance, four times, and so on. |
| `IsaacState.ShiftLeft` | Third_Party/ZBAR/src/isaac.c:27-35 | Shifting bits to the left is multiplication modulo 2^32. |
| `IsaacState.ShiftRight` | Third_Party/ZBAR/src/isaac.c:31-39 | Shifting bits to the right is division. |
| `IsaacInit.MixIsBijection` | Third_Party/ZBAR/src/isaac.c:66-78 | `isaac_mix` is a bijection on eight words. |
| `IsaacWords.MixIs` | Third_Party/ZBAR/src/isaac.c:66-78 | `isaac_mix` in numbers: eight steps with the shifts 11, 2, 8, 16, 10, 4, 8 and 9. |
| `IsaacWords.SeedWordIs` | Third_Party/ZBAR/src/isaac.c:93-103 | A word of the seed holds four of its bytes, lowest first, missing ones as zero. |
| `IsaacWords.AbsorbIs` | Third_Party/ZBAR/src/isaac.c:104-113 | Each group of eight words is added to the group written before it, mixed and written. |
| `IsaacWords.SeededIs` | Third_Party/ZBAR/src/isaac.c:81-115 | Four rounds of mixing from 0x9E3779B9, two passes over the array, and an update. |
| `IsaacInit.AbsorbedGroups` | Third_Party/ZBAR/src/isaac.c:104-113 | Each pass of the seeding loop is injective in the words it absorbs. |
| `IsaacInit.SeedDeterminesState` | Third_Party/ZBAR/src/isaac.c:81-115 | Two seeds start the same generator exactly when they agree on the first 1024 bytes, missing bytes counting as zero. |
| `Isaac.MixInPlace` | Third_Party/ZBAR/src/isaac.c:66-78 | Mixing in place computes the mixing function. |
| `Isaac.AbsorbPass` | Third_Party/ZBAR/src/isaac.c:104-113 | A pass over the array, also when it reads and writes the same array, computes the absorbing function. |
| `Isaac.LoadSeed` | Third_Party/ZBAR/src/isaac.c:93-103 | Whole words, the partial word and the zeros are the words of the padded seed. |
| `Isaac.Generator.constructor` | Third_Party/ZBAR/src/isaac.c:81-115 | The initial state is the one the seed determines, with 256 words to draw. |
| `Isaac.Generator.Update` | Third_Party/ZBAR/src/isaac.c:13-64 | The loop computes the transition, and the draw buffer holds the outputs of its 256 steps. |
| `IsaacWords.UpdateIs` | Third_Party/ZBAR/src/isaac.c:13-64 | `isaac_update` in numbers: the counter and b at the start, 256 steps with the shifts 13, 6, 2 and 16, the array places as remainders, and the words of the draw buffer. |
| `IsaacWords.XorLeftIs` | Third_Party/ZBAR/src/isaac.c:26-29 | Combining a word with one shifted to the left is exclusive or with a product modulo 2^32. |
| `IsaacWords.XorRightIs` | Third_Party/ZBAR/src/isaac.c:26-29 | Combining a word with one shifted to the right is exclusive or with a quotient. |
| `IsaacWords.DrawOrder` | Third_Party/ZBAR/src/isaac.c:117-120 | After an update draw k is the output of step 255 - k. |
| `Isaac.Generator.NextUint32` | Third_Party/ZBAR/src/isaac.c:117-120 | The words of an update are drawn last one first; an empty buffer is refilled. |
| `Isaac.Generator.NextUint` | Third_Party/ZBAR/src/isaac.c:127-138 | The loop ends with the first draw that is kept, given that there is one, and returns it reduced below the bound; all draws before it were dropped. |
| `Isaac.AlwaysKept` | Third_Party/ZBAR/src/isaac.c:133-136 | No draw is ever dropped exactly for the bounds that divide 2^32. |
| `Isaac.AcceptsIff` | Third_Party/ZBAR/src/isaac.c:133-136 | The overflow test keeps a draw exactly when it is below the largest multiple of n up to 2^32. |
| `Isaac.Unbiased` | Third_Party/ZBAR/src/isaac.c:127-138 | Every value below n has exactly floor(2^32 / n) kept draws. |
| `Printf.Output.Out` | Third_Party/vsprintf/new_printf.c:133-138 | Characters are put out at indices 0, 1, 2 and so on; the buffer holds those that fit. |
| `Printf.OutRev` | Third_Party/vsprintf/new_printf.c:199-223 | The scratch buffer is put out in reverse, with spaces on the side that the flags say. |
| `Printf.NtoaFormat` | Third_Party/vsprintf/new_printf.c:227-277 | Leading zeros, the # prefix and the sign, never beyond the 32 places of the scratch buffer. |
| `Printf.Ntoa` | Third_Party/vsprintf/new_printf.c:281-326 | The output grows by the text of the integer conversion, for all values and flags. |
| `Printf.PutString` | Third_Party/vsprintf/new_printf.c:776-820 | A string, cut to the precision, in its field. |
| `Printf.Convert` | Third_Party/vsprintf/new_printf.c:679-848 | The output grows by the text of the conversion, whether plain `char` is signed or not. |
| `PrintfConversions.UnsignedRoundTrip` | Third_Party/vsprintf/new_printf.c:679-768 | Reading the text of x and X in base 16, o in base 8, u in base 10 and b in base 2 gives the argument modulo the number of values of its size; always, but in base 2 only below 2^32. |
| `PrintfConversions.HashRoundTrip` | Third_Party/vsprintf/new_printf.c:679-768 | The same with # behind 0x, 0X, 0 and 0b, under the exact condition of `PrefixRoundTrip`. |
| `PrintfConversions.SignedText` | Third_Party/vsprintf/new_printf.c:679-755 | d and i print the signed value of the argument in base 10, with the sign that the flags ask for. |
| `PrintfConversions.SignedRoundTrip` | Third_Party/vsprintf/new_printf.c:679-755 | It is read back with its sign if and only if a minus sign has a place. |
| `PrintfConversions.IntegerLayout` | Third_Party/vsprintf/new_printf.c:199-277 | Spaces, sign, zeros, digits and spaces: which of them there are, and on which side. |
| `PrintfConversions.HexLetters` | Third_Party/vsprintf/new_printf.c:283-298 | The letters of x are a to f, those of X are A to F. |
| `PrintfConversions.CharacterField` | Third_Party/vsprintf/new_printf.c:776-795 | c prints the argument modulo 256 in its field. |
| `PrintfConversions.StringField` | Third_Party/vsprintf/new_printf.c:797-820 | s prints the string, cut to the precision, with spaces in front or behind. |
| `PrintfConversions.PointerDigits` | Third_Party/vsprintf/new_printf.c:822-840 | p prints eight upper-case hexadecimal digits of the argument. |
| `PrintfConversions.OneDirective` | Third_Party/vsprintf/new_printf.c:577-848 | A directive in a format prints its conversion, and the rest of the format what it prints with the remaining arguments. |
| `PrintfConversions.ArgumentsUsed` | Third_Party/vsprintf/new_printf.c:679-848 | Which conversions use up an argument; other characters are printed as they are. |
| `Printf.Format` | Third_Party/vsprintf/new_printf.c:577-850 | The output is the text of the format, which depends on format and arguments only. |
| `Printf.Snprintf` | Third_Party/vsprintf/new_printf.c:892-899 | The length returned does not depend on the size of the buffer; the buffer holds the first min(length, count - 1) characters and a NUL, and nothing else is changed; a count of 0 writes nothing. |
| `PrintfNumbers.DigitsRoundTrip` | Third_Party/vsprintf/new_printf.c:291-298 | The digits put out denote the value modulo the base to the number of places. |
| `PrintfNumbers.DigitsComplete` | Third_Party/vsprintf/new_printf.c:291-298 | They denote the value itself if and only if it is below the base to the number of places. |
| `PrintfNumbers.IntegerRoundTrip` | Third_Party/vsprintf/new_printf.c:227-326 | Reading an integer conversion without #, or of zero, gives back sign and value if and only if the value is below the base to 32 and a minus sign has a place; for all values, bases, flags, widths and precisions. |
| `PrintfNumbers.LongValuesFit` | Third_Party/vsprintf/new_printf.c:306-326 | All 64-bit values fit in base 8 and above, with a sign. |
| `PrintfPrefix.PrefixRoundTrip` | Third_Party/vsprintf/new_printf.c:242-276 | Sign and value of a conversion of another value with # in base 2, 8 or 16, with any flags, width and precision, are read back if and only if the places taken away are zeros and the prefix, and a minus sign, have a place. |
| `PrintfPrefix.HexDigitsTaken` | Third_Party/vsprintf/new_printf.c:244-249 | An input in base 16 that loses two digits. |
| `PrintfPrefix.OctalDigitTaken` | Third_Party/vsprintf/new_printf.c:244-249 | An input in base 8 that loses a digit. |
| `PrintfPrefix.BinaryDigitTaken` | Third_Party/vsprintf/new_printf.c:244-249 | An input in base 2 that loses a digit. |
| `PrintfPrefix.PrefixCut` | Third_Party/vsprintf/new_printf.c:250-261 | An input with a precision whose prefix is cut. |
| `PrintfLength.TextLength` | Third_Party/vsprintf/new_printf.c:199-277 | How long the text is: sign, prefix and number up to 32 places, then spaces up to the width unless zeros fill it; for all flags, # among them. |
| `PrintfLength.IntegerLength` | Third_Party/vsprintf/new_printf.c:227-277 | With and without #, the text has the length that C11 asks for if and only if: padded with zeros, width and number fit 32 places and the prefix fits beside the zeros; otherwise the width covers the number, or the number fits 32 places, no zeros of a precision are dropped or added and no places taken away. |
| `PrintfLength.ZerosReachWidth` | Third_Party/vsprintf/new_printf.c:234-249 | Padding with zeros reaches the width if and only if that is at most 32, with and without #. |
| `PrintfLength.PrecisionIgnored` | Third_Party/vsprintf/new_printf.c:229-239 | Two inputs where the length is not that of C11: a precision with the - flag, and zeros for a width of 40. |
| `PrintfLength.PrefixTooShort` | Third_Party/vsprintf/new_printf.c:244-249 | An input in base 16 with # that is two places too short. |
| `PrintfLength.OctalZeroAdded` | Third_Party/vsprintf/new_printf.c:259-261 | An input in base 8 with # and a precision that is a place too long. |
| `PrintfLength.BinaryZerosTooLong` | Third_Party/vsprintf/new_printf.c:244-261 | An input in base 2 with # and zeros that is a place longer than its width. |
| `PrintfLength.OctalZeroLost` | Third_Party/vsprintf/new_printf.c:286-292 | Zero in base 8 with # and a precision of zero is the empty text, where C11 asks for a digit. |
| `Printf.ParseDirective` | Third_Party/vsprintf/new_printf.c:601-677 | Flags, width, precision and length are read as the function `ReadDirective` says, whose inverse is below. |
| `PrintfConversions.FlagLetters` | Third_Party/vsprintf/new_printf.c:601-612 | The five flag characters. |
| `PrintfConversions.SizeLetters` | Third_Party/vsprintf/new_printf.c:646-677 | The letters for the size of an argument. |
| `PrintfShow.DirectiveRoundTrip` | Third_Party/vsprintf/new_printf.c:601-677 | Reading a directive that was written out gives back its flags, width, precision and size, and leaves what follows. |
| `PrintfShow.WidthArgument` | Third_Party/vsprintf/new_printf.c:614-629 | A width given as an argument means what the number would mean, with the - flag when it is negative. |
| `PrintfShow.PrecisionArgument` | Third_Party/vsprintf/new_printf.c:631-644 | A precision given as an argument means what the number would mean, a negative one counting as zero. |
| `LcdBand.Lcd.Draw` | application/src/luat_spi_air105.c:359-450 | The buffer becomes the screen with the clipped rectangle drawn on it, and the band of rows to flush remains the hull of the rectangles not yet sent; the panel does not change. |
| `LcdBand.Lcd.Flush` | application/src/luat_spi_air105.c:329-357 | One transfer with exactly the rows of the band, or none, makes the panel equal to the buffer, which is the screen that drawing every rectangle immediately gives. |
| `LcdBand.Lcd.Fill` | application/src/luat_spi_air105.c:425-437 | The two clipped pixel loops draw the rectangle, for corners on and off the screen. |
| `LcdBand.DrawnPixel` | application/src/luat_spi_air105.c:425-437 | Each pixel of the screen in a rectangle gets the pixel of the rectangle that is at its place, row by row from the top left corner; all others stay. |
| `LcdBand.WholeScreen` | application/src/luat_spi_air105.c:425-437 | A picture of the size of the screen is what the screen shows. |
| `LcdBand.TouchesIff` | application/src/luat_spi_air105.c:359-364 | A rectangle is drawn exactly when one of its pixels is on the screen. |
| `LcdBand.OutsideUnchanged` | application/src/luat_spi_air105.c:438-447 | Rows outside the band are the same before and after the rectangles. |
| `LcdBand.HullContains` | application/src/luat_spi_air105.c:438-447 | Every row of the screen that a rectangle touches is in the band. |
| `LcdBand.HullIsLeast` | application/src/luat_spi_air105.c:438-447 | Both ends of the band are rows that a rectangle touches, so no smaller band would do. |

## Where the code departs from its documentation

The model follows the code in each case.

- Third_Party/jpeg_encode/tiny_jpeg.c:1257-1268: T.81 section F.1.2.3 has the last byte filled up with one bits in front of the marker; `jpeg_encode_end` drops the waiting bits. `JpegEnd.EncodeEnd` says exactly when that breaks the file, `JpegEnd.FlatImage` is an instance.
- Third_Party/jpeg_encode/tiny_jpeg.c:651: the comment speaks of 15 zeros and the bytes FF 00; the code writes symbol F0 after 16 zeros, as T.81 requires.
- Third_Party/ZBAR/include/decoder.h:62-67: symbols above the maximal buffer size are said to be rejected; `postprocess_c` ignores that `size_buf` failed. `Code128.Decoder.Postprocess` and `Code128Scan.DigitsThatFit` give the exact bound, `Code128Scan.LongSymbol` is an instance.
- Third_Party/vsprintf/new_printf.c:227-277: section 7.21.6.1 of C11 gives a precision its effect also in a field aligned to the left, and pads with zeros to any width; here the precision is ignored there and zeros end at 32 places. `PrintfLength.IntegerLength` says exactly when the length is right, with # too; `PrintfLength.PrecisionIgnored` gives two inputs where it is not.
- Third_Party/vsprintf/new_printf.c:242-262: section 7.21.6.1 keeps all digits with #, adds a zero in base 8 only where none is, and counts the prefix into a width filled with zeros; here digits can be taken away, the prefix can be cut, base 8 gets its zero on top of a precision, and base 2 exceeds the width. `PrintfPrefix.PrefixRoundTrip` and `PrintfLength.IntegerLength` say exactly when; `HexDigitsTaken`, `OctalDigitTaken`, `BinaryDigitTaken`, `PrefixCut`, `PrefixTooShort`, `OctalZeroAdded` and `BinaryZerosTooLong` are inputs.
- Third_Party/vsprintf/new_printf.c:286-292: section 7.21.6.1 has zero in base 8 with # and a precision of zero printed as a single 0; here it is empty. `PrintfLength.OctalZeroLost` is that input, and the conditions of `PrintfLength.IntegerLength` cover it.

## Left out

- BGET: the expansion callbacks of `BECtl`, the dump functions and the test program are compiled out. `luat_heap_alloc` is not modelled.
- BGET: requests are at most 0x7FFFFFF0, so that rounding does not overflow; pools start on 8-byte boundaries above the static variables, are shorter than 2^31 and are at least 24 bytes long; a released pointer is one that is live.
- BGET: memory is a map of 32-bit cells, so alignment faults and accesses of other widths do not occur in it; `memset` and `memcpy` of payloads work word by word, with the last bytes of a copy merged into their word.
- BGET: `totalloc` and `maxalloc` are unbounded integers.
- BGET: the second scan loop of `bget` starts at the best block and is left in its first round, so its body is modelled once.
- JPEG: the transform, quantisation, colour conversion, marker segments and the gathering of pixels are not modelled. A block arrives as 64 integers, with AC values up to 1023 and DC differences up to 2047 in magnitude.
- JPEG: the contents of the header are arbitrary bytes.
- JpegScan.ScanReadable: speaks of the bytes together with the bits that still wait; JpegEnd.EncodeEnd says what remains true of the finished file.
- Binarize: the filters under the first `#if 0` are not compiled. Allocation succeeds, and width times height is taken without overflow.
- Code128.Decoder.Element: the edge signature tables and `decode6` are not modelled; it takes the decoded character, the width in front of it and the sum of its widths as parameters.
- Code128.Decoder.Feed: an overflow with a code of 103 or above among the data is bounded from one side only, because the sums of `validate_checksum` are not exact there.
- Code128.Decoder.PostprocessC: when set C expansion does not fit, the code writes behind its buffer; the model stops there and says so with `fits`.
- Code 128: other symbologies may clear the lock; mutual exclusion is not claimed. `realloc` succeeds.
- Isaac.Generator.NextUint: whether some draw will be kept is a property of the generated sequence, and a premise here; without it the loop of the source does not end.
- Printf.Convert: floating-point conversions are not modelled (`_ftoa` and `_etoa` round in binary floating point).
- Printf.Format: the same, and a format must have a conversion character behind each `%`.
- Printf.Snprintf: the same.
- printf: `printf_` through a character function, `fctprintf`, and `sprintf_` without a limit are not modelled. Indices are unbounded. Whether plain `char` is signed is a parameter.
- printf: an argument that is missing or of the wrong kind counts as 0 or as the empty string, where C leaves the behaviour undefined; formats and string arguments contain no NUL. On the 32-bit target `long`, pointers and `ptrdiff_t` have 32 bits and `intmax_t` has 64.
- Frame buffer: unbuffered drawing and the transfer itself are not modelled; a transfer succeeds. Coordinates are below 32767, where the 16-bit loop counters would wrap.
- The Reed-Solomon decoder of the QR reader (Third_Party/ZBAR/src/rs.c) is not modelled.
- The other drivers, the RTOS layer, `cm_backtrace`, the remaining symbologies and the desktop tools are not modelled.
