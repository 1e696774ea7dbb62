# A model of the delivery server's compressor, archive index and session protocol

The server delivers producers' messages to subscribed clients and compresses its log into an archive.
This project models both in Dafny and proves what they are for. `dafny verify dfyconfig.toml` checks it.

**The compressor and the archive** (`server/include/miniz.h`).

- `Lz77`, `HashChains`, `MatchSearch`, `Dictionary`, `Parser`: tokens and what they expand to; what the hash tables
  hold and what a search along a chain should find; the circular dictionary with its mirror, and the search; the
  lazy parser.
- `TokenBuffer`, `TokenReader`: the packed token buffer with its flag bytes, written and read.
- `RadixSort`, `PrefixCost`, `MergeTrace`, `MinimumRedundancy`, `CodeLimit`, `Canonical`, `HuffmanTable`,
  `CodeTables`: from frequencies to canonical, bit-reversed codes, in the source's own array passes. Optimality
  is proved from a history of the merges (`MergeTrace`), not from the algorithm's own tree.
- `Bits`, `BitOutput`, `LzCodes`, `CodeLengths`, `CodeHeader`, `DynamicBlock`, `StaticBlock`, `BlockOutput`,
  `Deflate`: bit output, both encoders, the headers, the choice of block, the compressor as a class.
- `Inflate` and `BlockCodec` say what a stream means, after RFC 1951, without reference to either program.
- `DeepWeights`, `LimitCost`, `SymbolCost`, `BlockSize`: what limiting the code lengths costs, and from it that no
  block outgrows the output buffer.
- `BitInput`, `DecodeTable`, `InflateTable`, `TableDecode`, `OutputBuffer`, `MatchCopy`, `Outcomes`, `HeaderReader`,
  `CodedBlock`, `StoredBlock`, `Inflater`: the decompressor, with its lookup table, overflow tree, two-literal loop and
  copy loops, into a fixed buffer or a circular one. `EmptyMatch` shows where it runs over. `RoundTrip` joins the two
  sides through `Inflate`.
- `StoredStream`: the decompressor's resumption over many calls, on stored blocks.
- `Checksums`: Adler-32 and CRC-32. `CrcRemainder` says what the CRC is by polynomials, without the algorithm.
- `NameIndex`, `RecordScan`, `LittleEndian`, `CentralDirectory`, `DirectoryReader`: the index by name, the search
  for the end record, and the directory written and read.

**The session protocol** (`server/src`). `LinkedList` is the sentinel-terminated list. `Sessions` gives the
protocol on values, `ReplayBuffer` and `Subscriptions` what every sequence of events keeps, `Delivery` who is sent
what, told by the rooms alone, and `Server` the server's own loops on linked lists, proved to follow `Sessions`.

`Sums` and `Arith` hold shared arithmetic, `Wrappers` an option type.

Five promises turned out to hold only under a condition, which is proved exact:

- A cleanup that reads the clock twice can lose a packet if a tick falls in between
  (`ReplayBuffer.NeverLosesIffReadOnce`).
- A take-over by a session that is already subscribed, or on another session's descriptor, breaks the agreement of
  rooms and sessions (`Subscriptions.AuthConsistent`); a failed accept does too (`Subscriptions.AcceptConsistent`).
- The search for the end record steps back with unsigned arithmetic and misses records in the first few
  kilobytes of archives of certain sizes (`RecordScan.ReachesAllIff`).
- A match by length symbol 286 or 287, which the format does not use and the fixed codes can spell, has length zero and
  is copied as three bytes: within the buffer exactly when three bytes are left (`CodedBlock.InflateMatch`,
  `EmptyMatch.BlockRunsOverIff`).
- A name of 4 GB or more is cut to 32 bits of length by the index and not by the scan (`NameIndex.AgreeIff`).

## Model

| member | source | states |
|---|---|---|
| Dictionary.CompareWords | server/include/miniz.h:3283-3291 | two places compared a 16-bit word at a time agree for the bytes counted and differ in the next word, or agree for all 258 when the countdown ends |
| Dictionary.Window.FindMatch | server/include/miniz.h:3252-3305 | the answer is the best that the hash chain offers: of the positions it leads to from the current one, within the dictionary and the turns of three that the probe limit allows, none agrees longer with the data at the current one, as far as the lookahead goes, and the nearest that agrees so long is reported, or the match given if none agrees longer than that; the search stops only at the end of the chain, at the limit, or when nothing longer is possible |
| MatchSearch.NotLonger | server/include/miniz.h:3275-3285 | the tests by two bytes pass over only what cannot be longer: a place that differs in the bytes at the end of the best match, or in its first two, agrees for no more bytes than that match |
| MatchSearch.Quest.LooksAt | server/include/miniz.h:3265-3303 | one more place looked at keeps the best the best, and ends its turn of three just when it looks longer or is the third |
| MatchSearch.ChainIsNearest | server/include/miniz.h:3587-3629 | following the chain from the current position meets the earlier positions of the same three-byte hash, nearest first and none left out, down to one whose place in the stream is a multiple of 65536, which the 16-bit tables hold as zero |
| Dictionary.Window.NoneLonger | server/include/miniz.h:3252-3305 | so no such position in the dictionary, as near as the turns allow, agrees longer than the answer |
| HashChains.HashCarried | server/include/miniz.h:3590-3624 | the hash carried from byte to byte is that of the last three bytes at once |
| HashChains.ChainsOn | server/include/miniz.h:3603-3627 | linking the position of the third last byte puts it at the head of its chain and keeps the chains of the last 32768 positions |
| Dictionary.Window.FindRun | server/include/miniz.h:3642-3655 | a run of the previous byte is reported exactly when it is at least three long, with as many bytes as repeat within the lookahead |
| Dictionary.Window.Refill | server/include/miniz.h:3582-3634 | the circular dictionary and its mirror hold the window of the data, and each position whose three bytes are there is in its hash chain; as many bytes are taken as the lookahead has room for; dictionary and lookahead together hold all since the last full flush, up to 32768 |
| Dictionary.Window.Forget | server/include/miniz.h:3803-3807 | a full flush leaves an empty dictionary and empty chains in a valid window |
| Lz77.CopyMatches | server/include/miniz.h:3288-3304 | a stretch that repeats the data dist places back is what copying back by dist gives |
| Parser.Parser.FindCandidate | server/include/miniz.h:3637-3665 | the candidate of one turn is what the search or the run answers, unless it is three bytes from 8 KB away or farther, reaches back as far as its place in the buffer, or the filter drops it |
| Parser.Parser.DecideSaved | server/include/miniz.h:3666-3682 | with a match held back, the literal or the held match is recorded and the new match taken or held exactly as the source chooses, and a match held on still fits the lookahead |
| Parser.Parser.DecideFresh | server/include/miniz.h:3683-3694 | without one, a literal or match is recorded or held back exactly as the source chooses |
| Parser.Parser.Step | server/include/miniz.h:3636-3699 | LZ77 soundness: after every turn the tokens, with the literal pending if a match is held, expand to exactly the data consumed, and a held match of length L finds L-1 bytes of lookahead; the tokens recorded and the match held are those the answer at the current position calls for |
| Parser.Parser.Refill | server/include/miniz.h:3582-3632 | refilling keeps that invariant |
| TokenBuffer.Buffer.RecordLiteral | server/include/miniz.h:3535-3545 | the packed buffer and both histograms hold the tokens so far and this one; the position grows by at most 2 |
| TokenBuffer.Buffer.RecordMatch | server/include/miniz.h:3547-3575 | the same for a match; at most 4 |
| TokenBuffer.Buffer.Finish | server/include/miniz.h:3139-3140 | with the last flag byte shifted or given back the buffer is exactly the packed form of the tokens |
| TokenBuffer.TokenBound | server/include/miniz.h:3702 | the buffer limits a block to 60000 tokens, so no histogram entry or its sum overflows 16 bits |
| TokenReader.LoadFlags | server/include/miniz.h:2986-2990 | loading a flag byte starts a group of up to eight tokens |
| TokenReader.ReadToken | server/include/miniz.h:2992-3021 | the low flag tells match from literal, and the bytes at the position are the token's |
| TokenReader.Step | server/include/miniz.h:2988 | shifting the flags and passing the bytes reaches the next token, in the group or before the next flag byte |
| TokenReader.AtEnd | server/include/miniz.h:2987-2988 | the position meets the end exactly when all tokens are read, with a partial, full or empty last group |
| Symbols.LengthInverts | server/include/miniz.h:2534-2567 | every length comes back from its symbol, extra bits and base, with the number of extra bits the decoder expects (section 3.2.5 of RFC 1951) |
| Symbols.DistanceInverts | server/include/miniz.h:2569-2634 | every distance does |
| BlockCodec.BlockRoundTrip | server/include/miniz.h:3067-3107 | block round trip: from any tokens whose symbols have words in prefix codes, what the encoder writes reads back as the same tokens and leaves the bits behind it untouched |
| LzCodes.CompressPortable | server/include/miniz.h:3067-3107 | one token at a time, the writer's bits grow by exactly the block's bits; the result says whether they end short of the buffer |
| LzCodes.PutTurn | server/include/miniz.h:2988-3038 | a turn of the fast form emits one match or up to three literals of one group, at most 48 bits |
| LzCodes.CompressFast | server/include/miniz.h:2972-3065 | the 64-bit form emits the same bits under an accumulator of at most 55 and answers as the portable form does; when they do not fit it has left the writer alone or written the whole block |
| BitOutput.Writer.PutBits | server/include/miniz.h:2799-2813 | appending bits, least significant first; bits past the buffer are counted but not stored |
| BitOutput.StoreWord | server/include/miniz.h:3043 | a 64-bit store carries the low bytes of the accumulator |
| BitOutput.Writer.Align | server/include/miniz.h:3190-3192 | zero bits up to the byte boundary |
| BitOutput.Writer.Return | server/include/miniz.h:3165-3166 | going back to the mark forgets exactly what was put since |
| BitOutput.Writer.Rewind | server/include/miniz.h:3226-3244 | sending the whole bytes keeps the bits of the unfinished one |
| RadixSort.TwoPassesSort | server/include/miniz.h:2657-2673 | a stable pass by the low byte and one by the high byte sort by the whole key |
| RadixSort.TwoPassesStable | server/include/miniz.h:2657-2673 | and are stable together |
| RadixSort.SkippedPass | server/include/miniz.h:2655-2656 | when every high byte is zero the pass left out would have changed nothing |
| RadixSort.Pass | server/include/miniz.h:2657-2667 | one counting pass moves each element to the place its bucket and rank give |
| RadixSort.StableIsPermutation | server/include/miniz.h:2644-2674 | a stably sorted result is a permutation of the input |
| RadixSort.RadixSortSyms | server/include/miniz.h:2644-2674 | the routine returns one of its two arrays, holding the first n symbols stably sorted by frequency |
| PrefixCost.MergeLowerBound | server/include/miniz.h:2687-2700 | merging the two smallest weights: a lower bound for the merged problem plus the merged weight bounds the original, over all lengths that meet Kraft's inequality |
| MergeTrace.TraceLowerBound | server/include/miniz.h:2687-2700 | no lengths cost less than the sum of the inner weights the merges make |
| MergeTrace.TreeKraft | server/include/miniz.h:2701-2703 | the depths have Kraft sum exactly one |
| MergeTrace.TreeOptimal | server/include/miniz.h:2678-2721 | the depths are optimal |
| MergeTrace.LeafDepthBounded | server/include/miniz.h:2678-2721 | with positive frequencies whose total is below 65536 no depth exceeds 22 (Fibonacci growth), so the histogram of 33 lengths is never overrun |
| MinimumRedundancy.MergeWeights | server/include/miniz.h:2686-2700 | the in-place merging leaves each inner node's parent, with no 16-bit overflow |
| MinimumRedundancy.NodeDepthsFromParents | server/include/miniz.h:2701-2703 | parents become depths in place |
| MinimumRedundancy.LeafDepthsFromNodes | server/include/miniz.h:2704-2720 | the last phase overwrites the array with the leaf depths, level by level |
| MinimumRedundancy.CalculateMinimumRedundancy | server/include/miniz.h:2678-2721 | for n >= 2 ascending frequencies with total below 65536 the keys become lengths that are non-increasing, have Kraft sum one and minimal weighted total, and whose deep part weighs little; the symbols stay |
| DeepWeights.TreeLightBelow | server/include/miniz.h:2678-2721 | a leaf at depth h weighs at most the total divided by Fib(h+1), and the leaves below depth h together at most that for each inner node at depth h, the nodes being what the shorter codes leave free |
| CodeLimit.ShortenOne | server/include/miniz.h:2736-2745 | one step of the limiter splits the longest size below the limit, lowers the Kraft sum by one, keeps the number of codes and never makes a count negative |
| CodeLimit.EnforceMaxCodeSize | server/include/miniz.h:2725-2746 | with no more codes than 2^limit it ends, keeps their number, and has Kraft sum exactly 2^limit within the limit; lengths already within it are left as they are; otherwise the counts are those that cutting to the limit and splitting, each time, the longest size below it come to; the shortest size it splits is one at which the free slots and those split before are too few for the codes |
| LimitCost.LimitingCost | server/include/miniz.h:2725-2746 | limiting to 15 bits costs at most one bit for each symbol coded, and at most a fifth of one when there are no more than 32 symbols |
| HuffmanTable.CollectUsed | server/include/miniz.h:2760-2766 | the symbols with a count, in order |
| HuffmanTable.MeasureLengths | server/include/miniz.h:2769-2772 | the histogram counts optimal lengths |
| HuffmanTable.LimitedLengths | server/include/miniz.h:2769-2775 | the counts after limiting; with no depth beyond the limit they still count the optimal lengths |
| HuffmanTable.AssignSizes | server/include/miniz.h:2779-2781 | sizes are handed out from the most frequent symbol down, as many of each as counted |
| HuffmanTable.SizesFromFrequencies | server/include/miniz.h:2758-2782 | every used symbol and no other gets a size within the limit, more frequent ones no longer ones; with at least two the sizes make a complete code, with as many of each size as limiting the depths of an optimal tree leaves; it is optimal unless a depth of the tree exceeds the limit, and with the limit 15 never more than a bit for each symbol coded from the best prefix code |
| Bits.ReverseBits | server/include/miniz.h:2793-2794 | the reversal loop turns most-significant-first code order into stream order |
| HuffmanTable.AssignCodes | server/include/miniz.h:2784-2796 | each symbol gets the bit-reversed canonical code of its size |
| HuffmanTable.OptimizeHuffmanTable | server/include/miniz.h:2748-2797 | the whole routine, for preset sizes and for frequencies, with the same promises |
| Canonical.PrefixFree | server/include/miniz.h:2784-2796 | canonical codes of sizes within Kraft's bound are prefix-free |
| CodeTables.BuildCoding | server/include/miniz.h:2748-2797 | the table built from counts is one the decoder accepts, and its codes spell the words the decoder derives from the same sizes |
| CodeLengths.Packer.PutRun | server/include/miniz.h:2824-2830 | a repeat symbol and its field are packed and counted |
| CodeLengths.Packer.Pack | server/include/miniz.h:2889-2915 | run-length round trip: expanding the packed symbols 0-18 gives the list back, and packing never outgrows it; run by run, zeros are cut into repeats of 138 and any other size after its first into repeats of six, and what is left is a repeat if it is at least three |
| CodeHeader.ReadsItems | server/include/miniz.h:2934-2942 | the packed sizes read back item by item |
| CodeHeader.HeaderRoundTrip | server/include/miniz.h:2919-2942 | header round trip: counts, permuted code-length sizes and packed sizes read back as both codes' sizes (section 3.2.7 of RFC 1951) |
| DynamicBlock.BuildCodes | server/include/miniz.h:2868-2871 | codes from a block's counts have a word for every token and the end marker, are near the best for those counts, and are accepted by the decoder; symbols 286, 287 and distances from 30 get none |
| DynamicBlock.StartDynamicBlock | server/include/miniz.h:2859-2943 | the type and header written read back as the sizes of the codes returned; at most 5000 bits; neither list is sent with trailing zeros beyond the fewest sizes there may be, both are packed as one, and the packed symbols have a complete code for their counts |
| StaticBlock.StaticAccepted | server/include/miniz.h:2945-2964 | the fixed codes have a word for every token |
| StaticBlock.StartStaticBlock | server/include/miniz.h:2945-2964 | the codes built from the preset sizes spell the fixed words |
| StaticBlock.StaticBlockFits | server/include/miniz.h:3182-3186 | a block of anything the token buffer can hold fits the output buffer under the fixed codes, so the fallback cannot fail |
| BlockSize.BlockLength | server/include/miniz.h:2972-3065 | a block is as long as its symbols cost by their counts, and the extra bits |
| BlockSize.AgainstStatic | server/include/miniz.h:2859-2943 | coded with its own codes a block takes at most a bit for each token, and a fifth of one for each match, more than with the fixed ones |
| BlockSize.DynamicBlockFits | server/include/miniz.h:3149-3186 | so a block of anything the token buffer can hold fits the output buffer under its own codes too, with over 6000 bits left for its header and what a flush adds: the fallback is never taken |
| Inflate.StoredReads | server/include/miniz.h:3163-3179 | a stored block reads back as its bytes (section 3.2.4 of RFC 1951) |
| Inflate.StaticReads | server/include/miniz.h:3111-3117 | a block under the fixed codes reads back as what its tokens expand to |
| Inflate.DynamicReads | server/include/miniz.h:3111-3117 | so does one with codes of its own |
| Inflate.StreamGrows | server/include/miniz.h:3119-3247 | appending a block that is not final extends what the stream carries by the block's bytes |
| Inflate.StreamEnds | server/include/miniz.h:3119-3247 | appending the final block makes a whole stream, whatever follows |
| BlockOutput.PutDynamic | server/include/miniz.h:3153-3156 | the block behind a header that says which codes, near the best for its counts, it is coded with; it is said to fit exactly when it does, and then ends more than 100 bits short of the buffer's end |
| BlockOutput.PutStatic | server/include/miniz.h:3182-3186 | coded with the fixed codes; always fits |
| BlockOutput.PutStored | server/include/miniz.h:3163-3179 | the block's bytes taken from the circular dictionary are the data's, and the body is their stored form |
| BlockOutput.PutBody | server/include/miniz.h:3149-3186 | whichever of the three is chosen, after going back if need be, the body reads back as the block's bytes and ends more than 100 bits short of the buffer's end; a coded form that fits is chosen unless the dictionary still holds the block and storing it takes no more bytes, and then it is stored |
| BlockOutput.NeverGrows | server/include/miniz.h:3160-3179 | so a block that the dictionary still holds takes at most five bytes more than it stands for |
| BlockOutput.PutBlock | server/include/miniz.h:3139-3186 | one block with its final bit and the body so chosen |
| Deflate.PutMarker | server/include/miniz.h:3200-3209 | a flush short of the end adds an empty stored block, which reads as nothing and ends at a byte boundary |
| Deflate.Compressor.WriteBlock | server/include/miniz.h:3119-3212 | a block and what its flush adds always end short of the output buffer, as the assertion at the end of the source demands |
| Deflate.Compressor.FlushBlock | server/include/miniz.h:3119-3247 | the block is written and sent and the next begins; what was sent and the bits held back carry exactly the bytes of the blocks so far, and after a flush nothing is held back |
| Deflate.Compressor.Turn | server/include/miniz.h:3582-3712 | one turn of the parser keeps that: it waits for more input or records what the best match at the current position calls for, the dictionary being what is left of it once the lookahead is filled, and flushes exactly when the buffer is nearly full or a long block does not shrink |
| Deflate.Compressor.Compress | server/include/miniz.h:3741-3811 | each call takes all its bytes; after the finishing call what was sent inflates to all bytes of all calls, under every flag and flush, without exception; after a flush short of the end what was sent carries all of them up to a byte boundary, and a full flush empties the dictionary |
| RoundTrip.CompressAll | server/include/miniz.h:3741-3811 | any list of calls and the finishing one: what was sent means the bytes joined |
| RoundTrip.CompressDecompress | server/include/miniz.h:3741-3811 | and the decompressor gives them back, or as many as the output holds and says so |
| RoundTrip.CompressToCallback | server/include/miniz.h:3741-3811 | through the circular buffer too, whatever their number, as far as the callback accepts them |
| BitInput.Reader.GetByte | server/include/miniz.h:1889-1906 | a byte moves into the accumulator without changing the bits ahead, or there is none |
| BitInput.Reader.GetBits | server/include/miniz.h:1926-1935 | takes exactly the next n bits, or nothing when there are fewer |
| DecodeTable.InsertShort | server/include/miniz.h:2171-2178 | a short code is entered at every index its bits head, keeping the table right |
| DecodeTable.InsertLong | server/include/miniz.h:2179-2199 | a long code is entered through the root slot and nodes, negative indices down, keeping the table right |
| DecodeTable.DecodeWord | server/include/miniz.h:1985-1994 | a finished table finds the symbol whose code heads the bits, and its exact length |
| InflateTable.TreeBound | server/include/miniz.h:2142-2200 | however codes are entered, the nodes stay below 288, so the tree of 576 slots is never left |
| InflateTable.Tally | server/include/miniz.h:2153-2158 | first codes, number of codes and Kraft sum come out of the one loop |
| InflateTable.BuildTable | server/include/miniz.h:2142-2200 | sizes are accepted exactly when they are complete or leave at most one code, and then the table holds them all |
| InflateTable.CompleteDecodes | server/include/miniz.h:1971-1998 | for every complete code exactly one code heads any fifteen bits, and lookup and tree find it with its length |
| TableDecode.FillFor | server/include/miniz.h:1943-1961 | bytes are read one at a time only while no code is whole; it gives up only if none heads the bits |
| TableDecode.HuffDecode | server/include/miniz.h:1971-1998 | whatever code heads the bits ahead is decoded and just its bits are taken, near the end of the input and away from it; if the code leaves no gaps, nothing else is decoded |
| TableDecode.DecodeHeld | server/include/miniz.h:2252-2268 | the same from bits already in the accumulator |
| HeaderReader.FillLenCodes | server/include/miniz.h:2202-2219 | a run may pass the end of the list wanted but never byte 457 of the array; on sizes that can be read the result is those sizes |
| HeaderReader.ReadDynamic | server/include/miniz.h:2130-2228 | the sizes of both codes of a dynamic block are those its header means; with a complete code-length code, only a header that means something is let through |
| HeaderReader.CompleteNoGap | server/include/miniz.h:2142-2200 | a complete code leaves no gaps: some word of it heads any fifteen bits |
| Inflater.StaticSizes | server/include/miniz.h:2115-2128 | the preset sizes are those of the fixed codes |
| CodedBlock.ReadMatchFields | server/include/miniz.h:2314-2329 | length and distance are what the tables give for the symbols and the extra bits, also for the symbols the format does not use |
| Symbols.DistanceBelow | server/include/miniz.h:2012-2016 | no distance the format can carry exceeds the dictionary |
| CodedBlock.InflateMatch | server/include/miniz.h:2331-2382 | a match is copied, is too far back, or has no room; the copy leaves the buffer exactly for a match of length zero, which only symbols 286 and 287 give, whose source or destination is less than three bytes before the buffer's end |
| CodedBlock.TwoSymbols | server/include/miniz.h:2245-2308 | two symbols decoded from one refilled accumulator are the two that head the bits; the first is stored after the second is decoded |
| CodedBlock.InflateLiterals | server/include/miniz.h:2232-2311 | literals are put out two a turn or one at a time, up to the next other symbol; both forms put out what the bits mean |
| CodedBlock.InflateCoded | server/include/miniz.h:2230-2384 | a block's symbols are decoded and its matches copied into exactly the bytes it means, or as many as there is room for; codes of at most 286 symbols never make a copy leave the output; into a fixed buffer and with complete codes, a block that ends means something unless it has a match the format does not know |
| StoredBlock.CopyStored | server/include/miniz.h:2086-2109 | the bytes of a stored block, from the accumulator and then in stretches, across the end of a circular buffer |
| StoredBlock.InflateStored | server/include/miniz.h:2071-2110 | a stored block yields the bytes it means, and one that ends means something |
| Inflater.InflateStream | server/include/miniz.h:2018-2398 | a wrapping output whose size is not a power of two is refused; any other gets of every meaningful stream just its bytes, or as many as there is room for, and says which |
| Inflater.Decompress | server/include/miniz.h:2484-2497 | into a fixed buffer: every meaningful stream that fits ends with just its bytes, and one that does not with its first bytes; conversely a stream that ends has put out what it means, if its codes are complete and its matches of the format; a stream whose symbols lead to a match of length zero less than three bytes before the end is one that runs over |
| Inflater.DecompressToCallback | server/include/miniz.h:2499-2531 | a callback that accepts so many buffers gets every meaningful stream in full exactly when it is no longer than those, and otherwise its first bytes |
| EmptyMatch.BlockRunsOverIff | server/include/miniz.h:2340-2382 | literals and one match of length zero run over the end of a fixed output exactly when it is at most two bytes longer than the literals |
| EmptyMatch.InputRunsOver | server/include/miniz.h:2370-2374 | an input of three bytes that does, with an output of one |
| OutputBuffer.PowersOfTwo | server/include/miniz.h:2035-2041 | the sizes let through are just the powers of two |
| OutputBuffer.Output.MakeRoom | server/include/miniz.h:2509-2528 | a full circular buffer is handed over and begun again without changing what was put out |
| OutputBuffer.Output.ByteBefore | server/include/miniz.h:2337-2338 | a circular buffer of n bytes holds the last n put out: the masked place holds the byte dist back, for every dist from 1 to n that there is |
| MatchCopy.CopyEights | server/include/miniz.h:2352-2358 | whole groups of eight, when the distance is at least the length, copy as byte by byte, with the source behind the destination or ahead of it |
| MatchCopy.CopyTriples | server/include/miniz.h:2370-2382 | three bytes a turn copy as byte by byte, overlapping or not, behind or ahead; even a length of zero is three bytes |
| MatchCopy.CopyFitting | server/include/miniz.h:2351-2382 | both together, for every length and distance that fit |
| MatchCopy.CopyBounded | server/include/miniz.h:2340-2349 | the byte-wise masked copy, across the end of a circular buffer, to the end of the match or of the room |
| MatchCopy.CopyMatch | server/include/miniz.h:2331-2382 | whichever loop is taken, and wherever the buffer wraps, the output grows by what copying back by the distance gives; it leaves the buffer exactly in the case named at `CodedBlock.InflateMatch` |
| StoredStream.StoredOnlyInflates | server/include/miniz.h:2068-2110 | what a stream of stored blocks means is what the format says |
| StoredStream.StretchMoved | server/include/miniz.h:2090-2109 | taking any part of a stretch straight from the input leaves the rest owed |
| StoredStream.Inflator.ReadHeader | server/include/miniz.h:2068-2073 | the header of a block, or a stop with nothing taken |
| StoredStream.Inflator.Resume | server/include/miniz.h:2068-2110 | one call on any input and room: what it puts out, followed by what the state still owes of the rest, is what was owed before, whatever comes later; it stops only for want of input, room, or at an end |
| StoredStream.Session | server/include/miniz.h:2068-2110 | chunking independence: however input and room are split over calls, a session that ends has put out what the whole input means, and one on meaningful input that is not short of room ends |
| Checksums.RunWithin32Bits | server/include/miniz.h:1394-1413 | from reduced sums, 5552 bytes keep both unreduced sums below 2^32 |
| Checksums.Adler32 | server/include/miniz.h:1392-1415 | the blocked, unrolled loop equals the byte-by-byte sums modulo 65521 |
| Checksums.AdlerConcat | server/include/miniz.h:1392-1415 | checksums compose over concatenation |
| Checksums.AdlerIs | server/include/miniz.h:1392-1415 | the first sum is the bytes added up, the second each byte as often as there are bytes from it on, both from the sums given and modulo 65521 (section 8.2 of RFC 1950) |
| Checksums.TableStep | server/include/miniz.h:1421-1424 | each entry of the 16-entry table is four steps of the reflected polynomial |
| Checksums.TableByteIsCrc | server/include/miniz.h:1430-1432 | two table steps are eight bit steps on a byte |
| Checksums.Crc32 | server/include/miniz.h:1420-1435 | the loop equals the bitwise checksum |
| CrcRemainder.ChecksumIsRemainder | server/include/miniz.h:1420-1435 | the checksum of a message is the one number that makes the message, its first 32 bits complemented, followed by the complement of the number a multiple of the generator polynomial over the integers modulo two (section 8.1.1.6.2 of ITU-T V.42) |
| CrcRemainder.PolynomialBits | server/include/miniz.h:1421-1424 | the reflected polynomial of the table is that generator without its leading term |
| Checksums.CrcConcat | server/src/zip.c:1220-1223 | chaining calls over chunks equals one call on the concatenation |
| NameIndex.OrderChains | server/include/miniz.h:4543-4568 | the case-insensitive order of names is transitive |
| NameIndex.FilenameLess | server/include/miniz.h:4543-4568 | the comparison loop decides that order |
| NameIndex.FilenameCompare | server/include/miniz.h:5191-5211 | zero exactly on names equal up to case, though the 32-bit difference of lengths may wrap |
| NameIndex.SiftDown | server/include/miniz.h:4590-4604 | the sinking loop restores the heap and only rearranges its part |
| NameIndex.SortByFilename | server/include/miniz.h:4581-4627 | the index ends as a permutation sorted by name |
| NameIndex.Bisect | server/include/miniz.h:5213-5236 | on a sorted index listing all entries it returns one whose name matches, and -1 only if none does |
| NameIndex.Scan | server/include/miniz.h:5254-5289 | the linear scan returns the first match |
| NameIndex.AgreeIff | server/include/miniz.h:5238-5290 | search and scan agree on a name for every archive exactly when its length fits 16 bits or still does not after being cut to 32; otherwise an archive shows the difference |
| NameIndex.Locate | server/include/miniz.h:4581-4627 | index built and searched, against the scan: found by both or neither, with the same name |
| RecordScan.LocateHeaderSig | server/include/miniz.h:4629-4675 | the backward scan finds the last signature with room for its record no lower than it reaches, and fails only if there is none |
| RecordScan.ReachIs | server/include/miniz.h:4641-4671 | how low that is: sixteen whole steps, or as many as fit |
| RecordScan.ReachesAllIff | server/include/miniz.h:4664-4670 | every place a record with a 16-bit comment may begin is reached exactly for archives of at most 4096 bytes, of whole steps up to 64 KB, or of at least 69584; the step back is computed unsigned |
| RecordScan.Missed | server/include/miniz.h:4664-4670 | for every other size an archive whose record is missed |
| CentralDirectory.CreateHeader | server/include/miniz.h:6005-6032 | the 46 bytes hold every field at its offset, sizes cut to 32 bits |
| CentralDirectory.ArchiveWriter.AddToCentralDir | server/include/miniz.h:6034-6076 | the directory grows by one record and its offset, or nothing changes; refused exactly past 32 bits |
| CentralDirectory.CreateEnd | server/include/miniz.h:6684-6692 | the end record holds count, size and offset |
| CentralDirectory.ArchiveWriter.Finalize | server/include/miniz.h:6654-6706 | data, directory and end record follow each other; refused exactly past 65535 entries or 32 bits |
| DirectoryReader.WalkRecords | server/include/miniz.h:4846-4971 | the loop over the records makes the checks in their order and lists the offsets |
| DirectoryReader.ReadCentralDir | server/include/miniz.h:4677-4977 | opening: the last end record is used, and the answer is what its checks and the walk give |
| DirectoryReader.SealFound | server/include/miniz.h:6654-6706 | in a finished archive the scan stops exactly at size - 22, whatever the data and names hold |
| DirectoryReader.SealedOpens | server/include/miniz.h:6654-6706 | central-directory round trip: a finished archive opens exactly when no 64-bit locator stands in front of its end record and every entry is readable, and then with the same count, directory and offsets |
| DirectoryReader.EntriesReadBack | server/include/miniz.h:6034-6076 | the record at each offset says what was written |
| DirectoryReader.WriteAndOpen | server/include/miniz.h:6654-6706 | writing any entries and opening the result |
| LinkedList.List.AddStart | server/src/list.c:13-20 | the sentinel-terminated chain stands for the sequence with the data in front |
| LinkedList.List.AddLast | server/src/list.c:22-40 | with the data at the end |
| LinkedList.List.Find | server/src/list.c:42-54 | the first index that matches, or -1 |
| LinkedList.List.Delete | server/src/list.c:56-91 | removes the node at the index and no other; a bad index removes nothing |
| LinkedList.List.Get | server/src/list.c:134-145 | the data at the index, or nothing |
| Server.FindToken | server/src/srv_util.c:22-28 | searching by token finds the first session with it |
| Server.CollectOldPackets | server/src/srv_util.c:74-104 | the walk that deletes while iterating is an order-preserving filter, and only then moves its time |
| Server.DeliveryManager.BroadcastRoom | server/src/srv_util.c:3-20 | a packet goes to every descriptor of the room in order |
| Server.DeliveryManager.Accept | server/src/srv.c:155-178 | the lists stand for the state after an accept |
| Server.DeliveryManager.Ack | server/src/srv.c:205-211 | after an acknowledgement by a session it knows (see below for another) |
| Server.DeliveryManager.Resend | server/src/srv.c:258-276 | the resend loop sends the packets not older than the session's time, in buffer order |
| Server.DeliveryManager.Auth | server/src/srv.c:212-280 | after a take-over, on each of its three outcomes |
| Server.DeliveryManager.Command | server/src/srv.c:309-375 | after a command, valid or not |
| Server.DeliveryManager.Produce | server/src/srv.c:401-404 | after a producer's packet |
| Server.DeliveryManager.CollectConnections | server/src/srv_util.c:106-157 | the walk that drops silent subscribers is the filter of the protocol, with their rooms, descriptors and farewells |
| Server.DeliveryManager.CollectPackets | server/src/srv_util.c:74-104 | the buffer cleanup on the server's lists |
| Server.DeliveryManager.Handle | server/src/srv.c:142-420 | every event refines the protocol step (an acknowledgement being one by a known session) |
| Server.Serve | server/src/srv.c:142-420 | over every sequence of such events the linked lists stand for the protocol's state |
| ReplayBuffer.FreshKeepsRecent | server/src/srv_util.c:88-102 | the buffer cleanup keeps every packet not older than the timeout |
| ReplayBuffer.NoReplayLoss | server/src/srv.c:374-419 | over any sequence of events with a monotone clock read once per cleanup, every registered subscribed session has in the buffer all packets ever buffered from its time on |
| ReplayBuffer.AuthReplaysAll | server/src/srv.c:258-276 | so a take-over is sent exactly those, newest first and once each |
| ReplayBuffer.TickLosesPacket | server/src/srv.c:414-419 | two readings of the clock in one cleanup that differ lose a packet |
| ReplayBuffer.NeverLosesIffReadOnce | server/src/srv.c:414-419 | a final cleanup never loses one exactly when its two readings are equal |
| Subscriptions.AcceptConsistent | server/src/srv.c:155-178 | an accept keeps rooms and sessions in agreement exactly when it did not fail; the session is registered either way |
| Subscriptions.AckConsistent | server/src/srv.c:205-211 | an acknowledgement does |
| Subscriptions.CommandConsistent | server/src/srv.c:309-375 | a command does |
| Subscriptions.CollectConsistent | server/src/srv_util.c:106-157 | the cleanup does |
| Subscriptions.AuthConsistent | server/src/srv.c:212-256 | a take-over does exactly when the session given up is in no room and the descriptor is not another session's |
| Subscriptions.FreshClientOk | client/src/cliente.c:73-88 | which holds for a client that asks on the connection just accepted |
| Subscriptions.StepConsistent | server/src/srv.c:142-420 | every allowed event keeps the agreement |
| Subscriptions.AlwaysConsistentFromStart | server/src/srv.c:142-420 | so in every reachable state rooms have no duplicates, every descriptor in a room is one session's, and each counter is the number of rooms that hold it |
| Subscriptions.BroadcastOnce | server/src/srv_util.c:3-20 | so a packet reaches every subscriber of its producer once |
| Delivery.ProduceDelivers | server/src/srv.c:401-404 | in every state where rooms and sessions agree, a producer's packet is sent once, as it is, to each descriptor in that producer's room and to no other; rooms and sessions stay |
| Delivery.AddSubscribes | server/src/srv.c:314-341 | an add command puts the session's descriptor in the room of the producer named and tells it so once; other rooms, other members and other sessions are as before; one that names no session or producer, or a room that has the descriptor, changes nothing |
| Delivery.DelUnsubscribes | server/src/srv.c:342-364 | a delete command takes just that descriptor out of just that room, silently; an invalid one changes nothing |
| Delivery.AfterCommand | server/src/srv.c:309-375 | so after an add the descriptor is in the room, and after a delete it is not, whatever was so before |
| Delivery.CollectDrops | server/src/srv_util.c:106-157 | the cleanup drops exactly the sessions that are in some room and have been silent for more than the timeout, once the first period is over: each is sent one farewell, is closed and leaves its rooms; the others stay in order and are sent nothing |
| Delivery.Survives | server/src/srv_util.c:117-120 | so a session that is in no room, or heard from within the timeout, survives every cleanup |
| Delivery.OldPacketsLeave | server/src/srv_util.c:74-104 | once a period the packets older than the timeout, and no others, leave the buffer |
| Delivery.AcceptGreets | server/src/srv.c:155-178 | a client that is accepted is told its token, is in no room, and nobody else is told anything |
| Delivery.AckKeepsAlive | server/src/srv.c:205-211 | an acknowledgement moves its session's time only, and keeps it through every cleanup of the next five seconds |
| Delivery.AuthMoves | server/src/srv.c:212-280 | a take-over puts the new descriptor in exactly the old one's rooms, sends it the packets of the buffer that are not older than the session's time, and nobody else anything; one that fails is told so |
| Delivery.RecentAre | server/src/srv.c:263-270 | the packets replayed are all that are not older than that time |
| Delivery.SubscriberHears | server/src/srv.c:142-420 | over any run of allowed events that leave a descriptor's rooms alone, it is sent exactly the packets of the producers whose rooms it is in, in order |
| Delivery.AddedHears | server/src/srv.c:142-420 | from the start: a client that adds itself to a producer's room is told so once and from then on is sent that producer's packets, with those of the rooms it was in before, until a command, a cleanup or a take-over concerns it |

## Left out

- Sockets, `epoll`, message queues, threads, logging and the clock: descriptors, tokens, messages and clock readings
  are parameters of the events, and sending appends to a trace. A write that fails, `EPOLLHUP` and the CLI's log
  request (which changes no list) are not modelled, nor are tokens that collide and producer ids out of range.
- Server.DeliveryManager.Ack: an acknowledgement with an unknown token changes nothing in the model, and so in `Handle`
  and `Serve`; the source dereferences the null pointer the lookup returned.
- LinkedList.List.Delete: data are held by value, so that freeing a node's data and two lists pointing at the same data
  do not arise; an entry is changed in place by `Set`.
- MD5 of messages is external; the server changes a packet's timestamp after hashing it.
- `tdefl_compress_fast`, the parser of level 1, which the server does not select; the PNG writer and the zlib wrappers.
- Deflate.Compressor.Compress: models calls before the stream is finished with the bytes handed to a callback that
  succeeds; the zlib header and trailer, the caller's own output buffer and the status of misuse are left out.
- Dictionary.Window.FindMatch: only the form with unaligned word reads is modelled.
- HuffmanTable.SizesFromFrequencies: lengths that had to be limited are within a bit a symbol of the best prefix code,
  but not claimed to be the best within the limit; the source's limiter does not promise it.
- LzCodes.CompressFast: requires the position to be short of the buffer's end, as its callers ensure.
- BitOutput.Writer.PutBits: joining disjoint bits with `|` is modelled as addition.
- Inflater.InflateStream: that a stream which ends means something is stated for fixed buffers and for streams whose
  codes are complete and whose matches are of the format (`Inflater.StreamWhole`). In others the source takes the gap
  of an incomplete code for symbol 0 and copies a match that the format does not know, and a stream that means nothing
  may end; of those nothing is promised but the bounds and the cases that run over.
  Where the input ends early the model asks for more, and the source, told that there is no more, goes on with zero
  bits; no meaningful stream gets there. Suspension for want of input inside coded blocks is not modelled; for want of
  room it is, with the circular buffer handed over in place. Taking a place modulo the size of the buffer stands for
  masking it. `tinfl_decompress_mem_to_heap`, whose buffer grows, is left out.
- BitInput.Reader.GetByte: models calls for which more input may come; the zero byte of those without is not modelled.
- BitInput.Reader.GetBits: the same.
- StoredStream.Inflator.Resume: calls that announce no more input are not modelled; a block that is not stored ends the
  session.
- StoredStream.Session: no call of the session announces that no more input comes.
- The table arrays the compressor and the decompressor reuse from block to block are allocated afresh for each.
- DirectoryReader.ReadCentralDir: the 64-bit records and the search of extra fields for them end the model with
  `NotModelled`; allocation and read failures do not occur.
- CentralDirectory.ArchiveWriter.AddEntry: an entry's local header and data are bytes given by the caller; time
  conversion, alignment padding and the checks of names are left out.
- NameIndex.Scan: the search without flags and comment, the case in which the index is used.
- Deleting entries from an archive, normalising names and extracting to disk, in `server/src/zip.c`.
