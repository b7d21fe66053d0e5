# Deflate, checksums, ZIP name index and JSON walker: a model and its proofs

This project models the compression library `linux/usr/include/miniz.h` and the JSON walker
`linux/usr/lib/frozen/frozen.c`, and proves what they are for.

The centre is the DEFLATE codec (RFC 1951), raw or in the zlib format (RFC 1950). The compressor and the
decompressor share no code; here both are proved against one machine, `InflateSpec.Step`, that reads a bit
string one element of the format at a time and knows nothing of bit buffers, tables, windows or suspension.

* Compressor: `Dictionary` (ring, mirror, match search), `Chains` (what the hash chains hold), `LzBuffer` (token buffer), `Tally`
  (symbol counts), `RadixSort`, `MinRedundancy`, `LengthLimit`, `HuffTable` (code construction), `Rle`,
  `BitWriter`, `BlockWriter`, `BlockChoice` (the three block forms and the rollback), `Stream` (zlib header,
  flush marker, end of the stream), `Outlet` (callback or caller's buffer), `Deflate` (lazy and greedy parser,
  block flushing, `tdefl_compress`). `Encoding` says which bits a block consists of and proves that the
  machine reads them back. `Format` states the tables and headers of the format apart from the constants that
  both halves use.
* What the codes cost: `MergeModel` and `MergeCost` follow the merging phase of the in-place length computation
  on values, `Huffman` proves the bound that no prefix code can beat, `LimitCost` what limiting the lengths
  adds to it, `SymbolList` carries both to the symbol table, and `BlockSize` concludes how long a dynamic
  block can get.
* Decompressor: `InflateTable`, `InflateBuild`, `InflateHuffman` (lookup table and overflow tree),
  `InflateReader` (bit buffer), `InflateOutput` (output buffer or window), `Inflate` (the coroutine).
  `InflateSteps` says what each step of the machine needs and keeps.
* `EndToEnd` puts the halves together: what one writes, the other turns back, however input and output
  are divided over calls on both sides.
* `Checksums` (Adler-32 with deferred modulo, CRC-32 by nibbles; `Residue` proves what the CRC of data with its
  own CRC is) and `ZipIndex` (heap sort, binary search and linear scan) stand by themselves, as do `JsonGrammar`
  (what a JSON text stands for), `JsonForm` (how it is written, and that events are well nested), `JsonPaths`
  (where each value is reported) and `Json` (the recursive walker with a bounded path).

The C structures are classes whose methods update their fields and arrays in place; the fields of
`tdefl_compressor` and `tinfl_decompressor` are grouped into several classes by the code that uses them, and
the cursors that `tinfl_decompress` keeps in local variables are fields of its reader and output. Each method
is proved against a specification on values. Arrays of `uint16` and `uint8` elements are arrays of numbers;
that no element or count exceeds its width follows from the contracts (at most 58,254 tokens fit a token
buffer). The portable branches are modelled, and for the decompressor also the 64-bit bit buffer (`wide`)
and the 8-byte match copy (`unaligned`). The symbol tables of the compressor are written in closed form.
Where the caller has room for a whole output buffer, the program writes there directly; the model writes to
the output buffer and hands all of it over, which delivers the same bytes.

Codes with at most one symbol are accepted even when incomplete, as the program does
(`linux/usr/include/miniz.h:2168-2170`); section 3.2.7 of RFC 1951 allows this for one distance code. A comment
in `tdefl_flush_block` calls a coded block that does not fit the output buffer "extremely unlikely (if not
impossible)" (`linux/usr/include/miniz.h:3180-3181`); it is impossible, see `BlockChoice.FallbackUnused`.
The hash tables keep the low 16 bits of positions and 0 for none (`linux/usr/include/miniz.h:3325-3326`), so a match that
starts at position 0, or at any other multiple of 65536, is never found, and none behind it in its chain: see
`Dictionary.Dict.FindMatch`. That costs a few bytes of compression and nothing else.

## Model

| member | source | states |
|---|---|---|
| EndToEnd.RoundTrip | linux/usr/include/miniz.h:3741-3811 | Losslessness: any source, any compression flags (zlib header or not), any calls of the compressor with any input, flush and room for output, or a callback, and any division of the packed bytes and of the room on the other side give back exactly the source, with status DONE |
| EndToEnd.CompressPieces | linux/usr/include/miniz.h:3741-3811 | Whatever the calls, flushes and buffers before, calling with FINISH until the end is reported delivers a complete stream of exactly the source, zlib or raw as the flags say |
| EndToEnd.InflatePieces | linux/usr/include/miniz.h:2000-2006 | Every complete stream is decompressed to the bytes it stands for, through any sequence of calls with any amounts of input and room, empty ones included; all of the stream is consumed |
| EndToEnd.FlushedIsReadable | linux/usr/include/miniz.h:3200-3210 | What a flush is for: the bytes delivered up to a sync or full flush are enough for the other side to give out all data compressed so far, before the stream goes on |
| EndToEnd.FullFlushRestarts | linux/usr/include/miniz.h:3803-3807 | What a full flush is for: whatever the calls before and after, the bytes delivered after the flush, without the checksum of a zlib stream, are by themselves a raw stream of exactly the data compressed after it, and any decompressor that has seen nothing else gives these back |
| EndToEnd.NothingHeldBack | linux/usr/include/miniz.h:1885-1908 | Where the decompressor asks for more input, it has given out everything that what it was given stands for |
| EndToEnd.InflateWindow | linux/usr/include/miniz.h:2499-2528 | Decompressing through a 32 KB window that the caller goes round delivers exactly the stream's bytes |
| EndToEnd.StreamUnique | linux/usr/include/miniz.h:2000-2006 | A complete stream stands for one byte string only |
| Deflate.Compressor.constructor | linux/usr/include/miniz.h:3819-3855 | Probe counts and modes follow from the flags, bit by bit; a fresh compressor satisfies all invariants, with no output, nothing taken in and checksum 1 |
| Deflate.Compressor.Compress | linux/usr/include/miniz.h:3741-3811 | Status protocol and meaning of a call: bad sequences change nothing; input or output is left over only where the buffer is full; an error is reported exactly when a call of the callback failed; DONE comes with a complete stream of exactly the bytes taken in; after a flush that found room, the bytes delivered stand for all of them; after a full flush the dictionary is empty, and everything delivered from there on, by itself, is a raw stream of the data taken in since; with room every call with FINISH makes progress |
| Deflate.Compressor.CompressNormal | linux/usr/include/miniz.h:3577-3718 | All input is taken and under flush the lookahead is drained, unless output does not fit: then it stops after a block with all invariants intact. Without a flush nothing is parsed before the lookahead is full |
| Deflate.Compressor.ParseStep | linux/usr/include/miniz.h:3632-3711 | One round keeps every invariant and moves on by at least one byte; a block is flushed when the token buffer is almost full or 31 KB compress badly, then and only then; the token buffer never overflows |
| Deflate.Compressor.ParseOne | linux/usr/include/miniz.h:3632-3699 | Search, rules and decision in sequence: what is recorded follows from what was found, and the position moves by what was decided |
| Deflate.Compressor.Decide | linux/usr/include/miniz.h:3662-3695 | The lazy/greedy state machine keeps the parse lossless: the tokens expand to the source up to the new position, less one byte while a true match is held back. Which tokens are recorded, what is held back and how far to move follow the cases of the source |
| Deflate.Compressor.Search | linux/usr/include/miniz.h:3632-3661 | What is found is the longest run for run-length parsing, nothing for raw blocks, otherwise a true match, longer than the known one, that only matches out of reach of the probes exceed; it is dropped exactly by the three rules of the source |
| Deflate.Compressor.TakeInput | linux/usr/include/miniz.h:3583-3629 | Filling the lookahead appends exactly the input taken and keeps all invariants |
| Deflate.Compressor.RecordLiteral | linux/usr/include/miniz.h:3535-3545 | The token is appended and the statistics and byte total follow |
| Deflate.Compressor.RecordMatch | linux/usr/include/miniz.h:3547-3575 | The token is appended and both statistics rows and the byte total follow |
| Deflate.Compressor.EmitBlock | linux/usr/include/miniz.h:3119-3186 | The bits written so far, with the new block, are read as everything before the block's end, and those since the last full flush as everything since then; the form of the block is the one chosen; no bit is dropped |
| Deflate.Compressor.FlushBlock | linux/usr/include/miniz.h:3119-3246 | A block in mid-stream: every invariant holds again for an empty token buffer; with a sync or full flush the bytes sent and waiting stand for everything before; with FINISH they are the complete stream. The bits added are the block in its chosen form and exactly what the flush asks for behind it |
| Deflate.Compressor.FlushAll | linux/usr/include/miniz.h:3796-3808 | The end of a flushing call: a full flush, and no other, empties the dictionary and makes this the place from which the stream can be read by itself |
| Stream.EncodedBlock | linux/usr/include/miniz.h:3139-3186 | Appending a block to bits that stand for `out` gives bits that stand for `out` plus the block's bytes, whatever follows |
| Stream.EncodedFinal | linux/usr/include/miniz.h:3188-3199 | After the last block, padding and in a zlib stream the checksum of all bytes complete the stream |
| Stream.TellsBlock | linux/usr/include/miniz.h:3139-3186 | If the tokens of a block refer to nothing before the last full flush, the bits since that flush go on being readable by themselves |
| Stream.TellsFinal | linux/usr/include/miniz.h:3188-3199 | At the end the bytes from that flush on, without the checksum, are a complete raw stream |
| Stream.PutTail | linux/usr/include/miniz.h:3188-3214 | What follows a block, bit by bit: nothing; for a sync or full flush zeros up to a byte boundary, sixteen zeros and sixteen ones, which change nothing of the meaning; or the end of the stream. No byte of it is dropped |
| Stream.PutHead | linux/usr/include/miniz.h:3142-3145 | The zlib header is 78 01 and one that every decompressor of zlib streams with a 32 KB window accepts |
| Outlet.Outlet.Deliver | linux/usr/include/miniz.h:3226-3246 | Bytes delivered and bytes waiting together are all whole bytes written; bytes wait only where the caller's room is used up; the callback is called once for output that is not empty, and its answer is the result |
| Outlet.Outlet.Flush | linux/usr/include/miniz.h:3720-3739 | Waiting bytes are delivered in order, as far as there is room |
| Deflate.ParsedLit | linux/usr/include/miniz.h:3577-3718 | Recording the next source byte as a literal keeps the tokens an exact parse of the source |
| Deflate.ParsedMatch | linux/usr/include/miniz.h:3577-3718 | Recording a true match, overlapping or not, keeps the tokens an exact parse of the source |
| BlockChoice.BlockMeaning | linux/usr/include/miniz.h:3139-3186 | One block, three encodings, one meaning: fixed, dynamic and stored form all decode to the same source bytes |
| BlockChoice.WriteBlock | linux/usr/include/miniz.h:3119-3186 | Exactly one complete block has been added: raw if forced, or if the coded form saves nothing and the ring still holds the bytes; otherwise with fixed codes for less than 48 bytes or if forced, else with described codes. More than 3000 bytes of the output buffer are free |
| BlockChoice.StaticRatio | linux/usr/include/miniz.h:1225-1226 | A static block needs at most 31 output bits for 25 bits of token buffer |
| BlockChoice.StaticFits | linux/usr/include/miniz.h:3182-3186 | A static block always fits the output buffer, for every content of the token buffer |
| BlockChoice.DynamicFits | linux/usr/include/miniz.h:3180-3186 | A dynamic block always fits as well: header, codes limited to 15 bits and extra bits stay below 655,000 bits |
| BlockChoice.FallbackUnused | linux/usr/include/miniz.h:3180-3186 | Whatever coded block is written, success is reported: the fallback to fixed codes is never taken |
| BlockSize.DynamicRatio | linux/usr/include/miniz.h:2859-2943 | With the codes made from their counts, tokens and end code take at most 31 bits for 25 bits of token buffer, plus 8 |
| BlockSize.TallyCost | linux/usr/include/miniz.h:2868-2878 | Weighted over symbols or added up over tokens, code lengths cost the same |
| BlockChoice.PutRaw | linux/usr/include/miniz.h:3159-3178 | The raw branch writes the stored form of the ring's bytes: header, padding, both lengths, data |
| BlockChoice.RingSliceIs | linux/usr/include/miniz.h:3173-3177 | The bytes taken from the ring are the source bytes of the block |
| BlockChoice.CompressBlock | linux/usr/include/miniz.h:3111-3117 | The bits added are a fixed or dynamic block of the recorded tokens, of bounded size; success is reported exactly when the position has not reached the end of the buffer |
| BlockWriter.StartDynamicBlock | linux/usr/include/miniz.h:2859-2943 | The header written describes exactly the codes the tables hold (`Format.HeaderWritten` says in which bits) and no unused symbol at their ends, and these code every recorded token |
| BlockWriter.StartStaticBlock | linux/usr/include/miniz.h:2945-2964 | The tables hold the fixed codes |
| BlockWriter.CompressLzCodes | linux/usr/include/miniz.h:3067-3107 | Reading the sealed token buffer writes the codes of exactly the recorded tokens and the end-of-block code |
| BlockWriter.ReaderStep | linux/usr/include/miniz.h:3072-3099 | The reader of the token buffer, flag byte and payload, meets the recorded tokens one by one |
| BlockWriter.PutItems | linux/usr/include/miniz.h:2929-2941 | The packed code lengths are written item by item, each with its repeat count |
| BlockWriter.MakeCodes | linux/usr/include/miniz.h:2868-2878 | Dropping unused symbols at the end loses no symbol in use and leaves none; both codes are usable |
| LzBuffer.Codes.RecordLiteral | linux/usr/include/miniz.h:3535-3545 | Buffer bytes and shifted flags stand for the old tokens and the new literal |
| LzBuffer.Codes.RecordMatch | linux/usr/include/miniz.h:3547-3569 | Buffer bytes and shifted flags stand for the old tokens and the new match |
| LzBuffer.Codes.Seal | linux/usr/include/miniz.h:3139-3140 | After the last shift every flag is in its place, and a trailing empty flag byte is dropped |
| LzBuffer.LayoutPush | linux/usr/include/miniz.h:3535-3569 | Writing a payload and shifting its flag in keeps the layout of all earlier tokens |
| LzBuffer.SealedFlags | linux/usr/include/miniz.h:3139-3140 | The final shift puts the flags of the last, partial group in their places |
| BitWriter.Writer.PutBits | linux/usr/include/miniz.h:2799-2813 | Output bytes and bit buffer hold the bits put, least significant first; bytes are missing only if the position has reached the end |
| BitWriter.Writer.Restore | linux/usr/include/miniz.h:3162-3164 | Rollback forgets exactly what was put since the position was saved |
| Dictionary.Dict.FindMatch | linux/usr/include/miniz.h:3307-3352 | A reported match is longer than the known one, at most as long as the lookahead, no farther than the window, and equal byte for byte; a longer one is missed only if at least as many positions with its hash as there are probes lie between, or one that is a multiple of 65536; matches at such positions are never found; probing ends |
| Dictionary.Dict.LongestFound | linux/usr/include/miniz.h:3307-3352 | With more probes than positions in the window, none of them a multiple of 65536, the match found is the longest there is |
| Dictionary.Dict.Forget | linux/usr/include/miniz.h:3803-3807 | All chains are cleared and nothing behind the position may be referred to |
| Chains.LinkedPush | linux/usr/include/miniz.h:3600-3608 | Entering a position into `hash` and `next` keeps the chains: from every position of the window they lead back through the earlier positions with the same hash |
| Chains.HashRolls | linux/usr/include/miniz.h:3589-3605 | Fifteen bits hold three bytes: the hash rolled on over a fourth is that of the last three |
| Chains.HashStated | linux/usr/include/miniz.h:3616-3624 | The hash of three bytes: each is moved on by five bits for every byte that follows |
| Dictionary.Dict.Fill | linux/usr/include/miniz.h:3586-3629 | The lookahead is filled as far as the input and 258 bytes allow; ring and mirror hold the last 32 KB and the chains all positions with three known bytes |
| Dictionary.Dict.RunLength | linux/usr/include/miniz.h:3639-3651 | The run-length search finds a true match of distance 1, the longest there is in the lookahead |
| Dictionary.RingPush | linux/usr/include/miniz.h:3600-3603 | Writing a byte to ring and mirror keeps the last 32 KB in place |
| Dictionary.RingAt | linux/usr/include/miniz.h:3336-3342 | Reading up to 258 bytes on without wrapping meets the history, thanks to the mirror |
| Dictionary.ProbeIsMatch | linux/usr/include/miniz.h:3336-3349 | Equal bytes at two ring positions are a match in the history |
| Dictionary.ProbePosition | linux/usr/include/miniz.h:3324-3330 | The 16-bit distance of a chain entry names the ring position that is probed |
| RadixSort.RadixSortSyms | linux/usr/include/miniz.h:2644-2671 | The result is a permutation of the input in ascending order of keys, in one of the two buffers |
| RadixSort.TwoPassesSort | linux/usr/include/miniz.h:2644-2671 | Two stable byte passes sort 16-bit keys and permute |
| MinRedundancy.CalculateMinimumRedundancy | linux/usr/include/miniz.h:2678-2721 | In place: lengths that never increase with frequency, Kraft sum exactly 1, at most 32 by the Fibonacci bound on depth, and of the least total weighted length among all prefix codes; symbols stay where they are |
| Huffman.LowerBound | linux/usr/include/miniz.h:2678-2721 | No lengths that respect the Kraft inequality have a smaller total weighted length than repeatedly merging the two least weights costs |
| MergeCost.RoundKeeps | linux/usr/include/miniz.h:2690-2705 | One round of the two-queue merge takes the two least weights: nodes made and weights left always add up to the cost of merging, and nodes made and leaves consumed balance at every moment |
| MinRedundancy.LevelWeight | linux/usr/include/miniz.h:2706-2720 | The leaves below a depth weigh as much as the nodes of that depth, so handing out depths level by level pays for exactly the nodes made |
| MinRedundancy.DepthFib | linux/usr/include/miniz.h:2678-2721 | A node at depth d carries a share of the total weight that grows like the Fibonacci numbers |
| MinRedundancy.LeafShare | linux/usr/include/miniz.h:2706-2720 | A symbol of length d carries at most one part in Fib(d) of the total weight |
| LengthLimit.EnforceMaxCodeSize | linux/usr/include/miniz.h:2725-2746 | From a complete histogram: terminates, no count negative, number of codes kept, no length above the limit, Kraft sum exactly 1, and all lengths below the shortest one split are as before |
| LengthLimit.CutIsDeep | linux/usr/include/miniz.h:2735-2745 | All codes from the shortest one split on take up at most two words of the limit's length per symbol |
| LimitCost.LimitedCost | linux/usr/include/miniz.h:2725-2746 | Limited to 15 bits, an optimal code costs at most 2/352 bits more per symbol in use and unit of weight |
| LengthLimit.RebalancedFree | linux/usr/include/miniz.h:2735-2745 | One round of the limiter lowers the scaled sum by exactly one |
| LengthLimit.ShorterCodeExists | linux/usr/include/miniz.h:2737-2743 | While the sum is too large there is a shorter code to lengthen |
| HuffTable.OptimizeHuffmanTable | linux/usr/include/miniz.h:2748-2797 | Exactly the symbols that occur get a length within the limit, the code is usable, with limit 15 within 2/352 bits per symbol of every prefix code, and the codes are the canonical ones, bit-reversed |
| Canonical.CodeFits | linux/usr/include/miniz.h:2784-2796 | A canonical code fits its length |
| Canonical.PrefixFree | linux/usr/include/miniz.h:2784-2796 | No canonical code is a prefix of another |
| Canonical.TotalIsKraft | linux/usr/include/miniz.h:2155-2170 | The decompressor's running total is 65536 exactly when the Kraft sum is 1 |
| Canonical.DecodeSymUnique | linux/usr/include/miniz.h:1971-1998 | Where the code of a symbol stands, that symbol and no other is decoded |
| Canonical.ReverseCode | linux/usr/include/miniz.h:2788-2795 | The bit-reversal loop, the same in both halves, puts the first transmitted bit lowest |
| Rle.Packer.Pack | linux/usr/include/miniz.h:2889-2915 | The packed code lengths stand for exactly the lengths given, never take more bytes than there are lengths, and are counted symbol by symbol; they are packed run by run: zeros by 138, other lengths once and then by six, what is left with code 18, 17 or 16, or written out if it is one or two |
| Rle.CountedSum | linux/usr/include/miniz.h:2815-2854 | The counts add up to the number of items emitted |
| Tally.TallyPush | linux/usr/include/miniz.h:3544-3575 | Counting a token keeps both statistics rows equal to the tokens' symbol frequencies |
| Tally.TokensCoded | linux/usr/include/miniz.h:2868-2878 | A code made for the counts codes every token |
| Encoding.FixedRun | linux/usr/include/miniz.h:2112-2125 | The machine reads a fixed block back as its tokens' bytes |
| Encoding.StoredRun | linux/usr/include/miniz.h:2072-2109 | The machine reads a stored block back as its bytes, from any bit position |
| Encoding.DynamicRun | linux/usr/include/miniz.h:2126-2228 | The machine reads a dynamic block back: header, code lengths, tokens |
| Encoding.ItemsRun | linux/usr/include/miniz.h:2202-2222 | Run-length coded lengths, codes 16, 17 and 18 included, are expanded to the lengths packed |
| Tokens.CopyIsMatch | linux/usr/include/miniz.h:2371-2382 | The byte-by-byte copy, overlap included, reproduces data that repeats at that distance |
| Tokens.LengthRoundTrip | linux/usr/include/miniz.h:2314-2321 | Length symbol and extra bits, read through the base tables, give the length back |
| Tokens.DistanceRoundTrip | linux/usr/include/miniz.h:2323-2329 | Distance symbol and extra bits, read through the base tables, give the distance back |
| Format.OrderStated | linux/usr/include/miniz.h:2018-2019 | The order of the code length code, position by position |
| Format.LengthCodeRead | linux/usr/include/miniz.h:2131-2138 | Which three bits of a dynamic block become the length of which symbol of the code length code, with every position written out |
| Format.DynamicHeaderRead | linux/usr/include/miniz.h:2126-2138 | The sizes and the code length code of a whole dynamic header: 5, 5 and 4 bits, then three bits a length at the positions written out |
| Format.HeaderWritten | linux/usr/include/miniz.h:2919-2933 | The header the compressor writes has its sizes and every length of the code length code in these places |
| Format.RepetitionRead | linux/usr/include/miniz.h:2215-2222 | Symbols 16, 17 and 18 repeat the last length or zero 3 to 6, 3 to 10 and 11 to 138 times |
| Format.LengthRead | linux/usr/include/miniz.h:2314-2321 | The length that a symbol and its extra bits stand for, in closed form |
| Format.DistanceRead | linux/usr/include/miniz.h:2323-2329 | The distance that a symbol and its extra bits stand for, in closed form |
| Format.LengthsStated | linux/usr/include/miniz.h:2005-2010 | The base and extra-bit tables of lengths, in closed form |
| Format.DistancesStated | linux/usr/include/miniz.h:2011-2017 | The base and extra-bit tables of distances, in closed form |
| Format.FixedLitStated | linux/usr/include/miniz.h:2112-2125 | The fixed literal code, symbol by symbol, as section 3.2.6 of RFC 1951 has it |
| InflateSpec.EndUnique | linux/usr/include/miniz.h:2000-2441 | A stream ends in one way: the machine is deterministic and stops at its ends |
| InflateSpec.FixedUsable | linux/usr/include/miniz.h:2112-2125 | The fixed codes are complete |
| Inflate.Inflater.constructor | linux/usr/include/miniz.h:1036-1040 | A fresh decompressor stands at the start of the stream's run |
| Inflate.Inflater.Decompress | linux/usr/include/miniz.h:2000-2441 | Suspend and resume: whatever the division into calls, output is a prefix of the one result; DONE, ADLER32_MISMATCH and FAILED come exactly at the end of the run with all of its output; NEEDS_MORE_INPUT only with the input used up, more announced, and no further element in what was given; HAS_MORE_OUTPUT only with the buffer full and more to come; the running checksum is that of the output, and stays as it is after a failure; at the end of a stream no more has been consumed than its bits and what the bit buffer holds |
| Inflate.Inflater.Continue | linux/usr/include/miniz.h:1865-1883 | From every point of suspension the coroutine goes on with the machine's next steps and keeps its invariant |
| Inflate.Inflater.DoZlibCmf | linux/usr/include/miniz.h:2054-2056 | The first byte of a zlib header is read |
| Inflate.Inflater.DoZlibFlg | linux/usr/include/miniz.h:2056-2066 | A zlib header is accepted exactly when method, check bits and dictionary flag are right and its window fits a wrapping buffer |
| Inflate.Inflater.RefusesHeader | linux/usr/include/miniz.h:2056-2063 | The four tests of a zlib header, in numbers |
| Inflate.PowerOfTwoIs | linux/usr/include/miniz.h:2038-2044 | The buffers refused are exactly those whose size is no power of two |
| Inflate.Inflater.DoLastBlockDone | linux/usr/include/miniz.h:2385-2387 | After the last block a zlib stream goes on at the next byte boundary |
| Inflate.Inflater.DoTrailer | linux/usr/include/miniz.h:2386-2396 | Four bytes, from bit buffer or input, are the checksum; nothing remains of what the 32-bit field held before |
| Inflate.Inflater.Sum | linux/usr/include/miniz.h:2409-2439 | The output of the call enters the running checksum, and at the end the status says whether it is the stream's |
| Inflate.Inflater.DoHeader | linux/usr/include/miniz.h:2069-2074 | The block header is read as the machine reads it |
| Inflate.Inflater.DoStoredLen | linux/usr/include/miniz.h:2074-2085 | The stored lengths are read from bit buffer or input, and rejected unless complementary |
| Inflate.Inflater.DoStoredData | linux/usr/include/miniz.h:2086-2109 | Stored bytes are copied from the bit buffer and then straight from the input |
| Inflate.Inflater.DoSizes | linux/usr/include/miniz.h:2127-2130 | The three table sizes are read |
| Inflate.Inflater.DoClLens | linux/usr/include/miniz.h:2131-2138 | The code length code is read in its own order, and built or rejected |
| Inflate.Inflater.DoLens | linux/usr/include/miniz.h:2202-2214 | A code length symbol is decoded and stored, or a repetition begins, or a leading 16 is rejected |
| Inflate.Inflater.DoRepeat | linux/usr/include/miniz.h:2215-2228 | A repetition fills in the lengths without overflowing their array |
| Inflate.Inflater.DoSymFast | linux/usr/include/miniz.h:2242-2308 | Two symbols at a time from a topped-up bit buffer are what decoding one by one gives |
| Inflate.Inflater.DoSymSlow | linux/usr/include/miniz.h:2234-2241 | A symbol decoded with care is the machine's symbol |
| Inflate.Inflater.StartMatch | linux/usr/include/miniz.h:2331-2382 | Too distant matches are rejected in a non-wrapping buffer; every way of copying performs the byte-by-byte copy |
| Inflate.Inflater.DoCopy | linux/usr/include/miniz.h:2343-2352 | The copy around the end of the window is the byte-by-byte copy, across suspensions too |
| Inflate.Inflater.CopyFast | linux/usr/include/miniz.h:2371-2382 | The three-at-a-time copy is the byte-by-byte copy, overlap included |
| Inflate.Inflater.CopyWords | linux/usr/include/miniz.h:2353-2370 | The eight-byte copy with its tail is the byte-by-byte copy |
| InflateBuild.Lookup.Build | linux/usr/include/miniz.h:2139-2200 | Tables are built exactly for usable codes, and then decode them; every table index is in bounds |
| InflateBuild.Lookup.EnterShort | linux/usr/include/miniz.h:2179-2186 | A code of up to 10 bits fills exactly the lookup entries that begin with it |
| InflateBuild.Lookup.EnterLong | linux/usr/include/miniz.h:2187-2199 | A longer code becomes a path in the tree, sharing the prefixes already there |
| InflateTable.TreeHasRoom | linux/usr/include/miniz.h:1078-1082 | The overflow tree of a usable code never has more than 288 nodes |
| InflateTable.AddShort | linux/usr/include/miniz.h:2179-2186 | Entering a short code disturbs no other entry |
| InflateTable.AddChild | linux/usr/include/miniz.h:2193-2197 | Creating a node disturbs no other entry |
| InflateTable.WalkStep | linux/usr/include/miniz.h:1988-1992 | Each step down the tree consumes the next bit of the code, and the last one gives its symbol |
| InflateHuffman.HuffDecode | linux/usr/include/miniz.h:1971-1998 | The symbol and length decoded are those of the canonical code at that place, whatever was buffered |
| InflateHuffman.Complete | linux/usr/include/miniz.h:1943-1962 | The test for a complete code in the bit buffer is exact, so no byte is fetched that the code does not need |
| InflateHuffman.FillBits | linux/usr/include/miniz.h:1936-1965 | Near the end of the input, bytes are fetched one at a time until the code is complete, and none that it does not need |
| InflateHuffman.NotThere | linux/usr/include/miniz.h:1936-1965 | A code that is not complete in the bit buffer cannot be decoded from what has been fetched |
| InflateHuffman.EntryFacts | linux/usr/include/miniz.h:1971-1998 | What a lookup entry says about the next symbol, with missing bits read as zero |
| InflateReader.Reader.GetBits | linux/usr/include/miniz.h:1925-1934 | The next bits of the stream, or starvation with nothing lost |
| InflateReader.Reader.GetByte | linux/usr/include/miniz.h:1889-1908 | A byte of input, suspension if more is announced, otherwise zero |
| InflateReader.BufferFits | linux/usr/include/miniz.h:1909-1915 | Neither a 32-bit nor a 64-bit bit buffer ever overflows: they hold at most 30 and 61 bits |
| InflateReader.BufferedPush | linux/usr/include/miniz.h:1909-1915 | "Bit buffer, then unread input" is unchanged by fetching a byte |
| InflateReader.BufferedDrop | linux/usr/include/miniz.h:1916-1934 | Masking and shifting read the next bits and leave the rest |
| InflateOutput.Output.Source | linux/usr/include/miniz.h:2337-2341 | The masked index holds the byte at that distance, in a window that reaches back so far or in a whole buffer |
| InflateOutput.HoldsPut | linux/usr/include/miniz.h:2343-2352 | A byte put keeps the last window of output in place |
| InflateSteps.MoreToCome | linux/usr/include/miniz.h:2242-2245 | Where the coroutine waits for room, output is still missing |
| InflateSteps.StandstillIsLast | linux/usr/include/miniz.h:1885-1908 | Where the machine cannot go on with a part of a stream, every run over that part has given out no more |
| InflateSteps.WithinWindow | linux/usr/include/miniz.h:2337-2341 | No stream has matches that reach back further than 32 KB |
| Checksums.Adler32 | linux/usr/include/miniz.h:1392-1415 | No addition overflows 32 bits for any start value and length, and the value is the checksum that `Checksums.AdlerForm` states |
| Checksums.AdlerForm | linux/usr/include/miniz.h:1392-1415 | The closed form: modulo 65521, the low half is one plus the sum of the bytes, the high half the number of bytes plus the sum of the bytes weighted by how many follow from them on |
| Checksums.AdlerComposes | linux/usr/include/miniz.h:1392-1415 | A checksum continued over further data is that of the concatenation |
| Checksums.WorstFits | linux/usr/include/miniz.h:1395-1409 | 5552 bytes without modulo fit 32 bits |
| Checksums.Crc32 | linux/usr/include/miniz.h:1420-1435 | Two table steps a byte compute the bit-serial reflected CRC-32; `Residue.OwnChecksum` says which one it is |
| Checksums.NibbleStep | linux/usr/include/miniz.h:1421-1434 | One table step is four steps of the shift register, for every register and nibble |
| Checksums.CrcComposes | linux/usr/include/miniz.h:1420-1435 | A CRC continued over further data is that of the concatenation |
| Residue.OwnChecksum | linux/usr/include/miniz.h:1420-1435 | The residue theorem: for all data, the CRC of the data followed by the four bytes of its own CRC, least significant first, is 0x2144DF1C |
| ZipIndex.SortByName | linux/usr/include/miniz.h:4581-4627 | The heap sort permutes the entry numbers into the order of folded names |
| ZipIndex.SiftDown | linux/usr/include/miniz.h:4590-4606 | Sifting restores the heap, permutes its part and leaves the rest alone |
| ZipIndex.FilenameLess | linux/usr/include/miniz.h:4543-4568 | The comparison says which of two names comes sooner: at the first bytes that are not the same letter, small letters standing for capitals (codes 65 to 90), or where one ends |
| ZipIndex.FilenameCompare | linux/usr/include/miniz.h:5191-5211 | The sign of the three-way comparison says which name comes sooner; it is zero exactly for names that agree byte for byte but for the case of letters |
| ZipIndex.FoldSame | linux/usr/include/miniz.h:4236 | Two names are the same without regard to case exactly if they are equally long and each pair of bytes is equal or 32 apart from 65 to 90 on |
| ZipIndex.BinarySearch | linux/usr/include/miniz.h:5213-5236 | An indexed entry of that name, but for the case of letters, is found exactly when there is one |
| ZipIndex.Scan | linux/usr/include/miniz.h:5249-5289 | The linear scan returns the first entry wanted, for every combination of flags and comment |
| ZipIndex.Archive.Locate | linux/usr/include/miniz.h:5238-5289 | With or without the index: an entry is found exactly when one is wanted, and it is one |
| ZipIndex.SearchIsScan | linux/usr/include/miniz.h:5245-5247 | For a plain search, index and scan look for the same entries |
| Json.JsonWalk | linux/usr/lib/frozen/frozen.c:803-818 | Exactly what the grammar reads: success, with the characters consumed, exactly when the text begins with a written value, and then the events are exactly those of that value, well nested, and report every value at every place with its path; otherwise the error the grammar gives, -1 or -2, and no value is written there |
| JsonForm.ReadExactly | linux/usr/lib/frozen/frozen.c:234-429 | A text is read as a value exactly when it is written in that form: quotes around strings, digits of numbers, words, brackets, commas and white space |
| JsonForm.ReportNested | linux/usr/lib/frozen/frozen.c:94-112 | The events are well nested: every start meets its own end, with the same path, around events whose paths begin with it |
| JsonForm.EventsNested | linux/usr/lib/frozen/frozen.c:94-112 | The same inside any enclosing containers, also where the path is cut off |
| JsonForm.WrittenIsRead | linux/usr/lib/frozen/frozen.c:339-429 | Every value that is written is read, with its token where it stands |
| JsonForm.ReadIsWritten | linux/usr/lib/frozen/frozen.c:339-429 | Every value that is read is written where its tokens say |
| JsonPaths.DecimalIsNumeral | linux/usr/lib/frozen/frozen.c:303 | The number in an item's path: digits only, none too many, and read from the first on they give the number |
| JsonPaths.IndexInjective | linux/usr/lib/frozen/frozen.c:303 | Different items have different numbers in their paths |
| JsonPaths.PathUnique | linux/usr/lib/frozen/frozen.c:114-122 | Every place in a value has one path: an item adds its number in brackets, a member a dot and its key, and 255 characters are kept |
| JsonPaths.PartReported | linux/usr/lib/frozen/frozen.c:294-318 | What reports a value inside another is a part of what reports the whole, with the path of its place |
| JsonPaths.AllReported | linux/usr/lib/frozen/frozen.c:94-112 | Every value of a text is reported with the path of its place: once for a scalar, at start and end for a container |
| Json.Walker.ParseValue | linux/usr/lib/frozen/frozen.c:339-381 | Reads the value that the grammar reads, or fails with its error; on success the path is restored and the new events are exactly those of the value at the path |
| Json.Walker.ParseObject | linux/usr/lib/frozen/frozen.c:415-429 | The object at the cursor: start and end with its path and span, and its members below path and dot |
| Json.Walker.ParseArray | linux/usr/lib/frozen/frozen.c:294-318 | The array at the cursor: start and end with its path and span, and its items at the path with their index |
| Json.Walker.ParsePair | linux/usr/lib/frozen/frozen.c:397-412 | Key, colon and value: the events of the key, where they are shown, then those of the value at the path with the key; the path is restored |
| Json.Walker.ParseString | linux/usr/lib/frozen/frozen.c:234-256 | The string token between its quotes, or the error of its first bad character |
| Json.Walker.ParseNumber | linux/usr/lib/frozen/frozen.c:259-291 | The longest number at the cursor, hexadecimal or decimal with fraction and exponent, or the error |
| Json.Walker.Append | linux/usr/lib/frozen/frozen.c:114-122 | The first 255 characters of path and name are kept, and the path stays terminated |
| Json.Walker.CallBack | linux/usr/lib/frozen/frozen.c:98-112 | An event is reported exactly when the path does not end in a dot |

## Left out

- Deflate.Compressor.Compress: `m_lookahead_pos` and `m_lz_code_buf_dict_pos` are unbounded; the program wraps them at 32 bits and uses them only modulo 65536 or as differences.
- Dictionary.Dict.FindMatch: how many entries are looked at beyond the number of probes is not stated.
- x86-only code of the compressor: `tdefl_compress_fast`, the two-byte `tdefl_find_match`, the 64-bit `tdefl_compress_lz_codes`; and the `TDEFL_LESS_MEMORY` sizes.
- Inflate.Inflater.Decompress: speaks of streams whose run ends, in success or in one of the rejections; truncated streams, which the program pads with zero bytes, and words that an incomplete code or the format leaves unassigned are not covered.
- Inflate.Inflater.Decompress: a wrapping buffer is gone round in order and reaches back as far as the matches of the stream do, and in it matches that reach before the start of the output, which the program does not check there, do not occur.
- LimitCost.LimitedCost: limited lengths are not the cheapest of their limit, and not claimed to be.
- Inflate.Inflater.Decompress: how many bytes it consumes beyond the end of a stream that is followed by other data is bounded (what a bit buffer of 30 or 61 bits holds), not stated exactly.
- `MZ_ASSERT` checks are not modelled as such; most are preconditions of the members that stand for the code around them.
- ZIP: files, headers, zip64 and everything of the archive but names, comments and the name index; names and search strings are byte strings without a length of their own in memory.
- Json.JsonWalk: the `name` argument of the callback, the callback's user data, and recursion depth are not modelled; the path handed over is the path buffer up to its length, although a multi-byte character of a key may contain a zero byte.
- The JSON printer, scanner, escaper and formatter of `frozen.c`.
- File access, allocation, time stamps, the PNG writer and the zlib-style wrapper functions of `miniz.h`.
