# zFTL in Dafny: the codec, the translation layer, the compressed memory, two circuits

A model of the core of zFTL, with proofs. Four components are covered, and each refines a
simple specification.

* **LZ4 blocks** (`Bytes`, `Bits`, `Lz4Format`, `Lz4Syntax`, `Lz4Copies`, `Lz4Decoder`,
  `Lz4UnsafeDecoder`, `Lz4Count`, `Lz4Writer`, `Lz4Search`, `Lz4Encoder`, `Lz4Codec`, `Lz4Greedy`,
  `Lz4Unique`, `Lz4Periodic`). `Lz4Format`
  says what a block means (`Meaning`), how it is printed (`Print`), which blocks conform
  (`Conforming`), and gives a reference decoder (`Decode`) without capacities or strides.
  `Lz4Syntax` shows that the reference decoder is exactly the inverse of the printer. The
  production decoder is a loop over the labels of `LZ4_decompress_generic`; at each label
  the invariant says what the reference decoder still has to do. The encoder is the greedy
  matcher with its hash table, as methods over arrays; `Lz4Search` says which positions it
  probes, what the table remembers, and where it must stop. So a block has one encoding
  only (`Lz4Unique.GreedyOnce`), and a block of records is compressed to about one record
  (`Lz4Periodic.PeriodicSize`).
* **Flash translation layer** (`FlashModel`, `FtlState`, `FtlSteps`, `FtlRaw`, `FtlMachine`,
  `FtlController`, `FtlHost`, `FtlFailures`, `FtlReserve`, `FtlTurnover`, `FtlRounds`, and `Lz4Compressor` in `Lz4Codec.dfy`). Two
  classes with the source's fields. `FtlMachine` is the specification of their tables and
  positions as functions, collections included; every method of the controller is shown
  to do exactly what its function says. `FtlHost.Run` shows that whole runs agree with a
  plain map from logical block to 4 KB of contents, under conditions on the collections
  that these functions determine; `FtlFailures` and `FtlTurnover` have runs on which they do not,
  `FtlReserve` the exact condition for a collection, and `FtlRounds` runs of any length, past
  the first round of the reserve pointer, that are right.
* **Compressed memory** (`BdiEngine`, `LineTable`, `HyperRam`). Line compression, the
  chunk allocator and the byte controller; `HyperRam.Run` shows that whole runs agree with a
  flat byte array.
* **Two clocked circuits** (`Lz4Rtl`, and `GrayCode` with `AxiFifo`). All registers of a
  clock change together, from their old values: a clock edge is a function from old
  registers and pins to new registers.

Wild copies, pre-emptive stores and overshoot are real stores into real arrays, so every
method that verifies also shows that they stay inside the buffers.

## What the code does that its comments do not say

Each of these is proved, and the conditions under which the code does meet its purpose are
the hypotheses of the main theorems.

* A block that LZ4 brings to 2049..3071 bytes is kept compressed but mapped as a raw page,
  so it reads back as compressed bytes (`FtlFailures.WriteThenRead` says exactly when). Every
  block with 2049 to 2700 bytes that do not repeat (the first below 240) and then a run is one
  (`FtlFailures.MidSizeReadsWrong`; `FtlFailures.MidSizeWitness` writes one and reads it).
* Overwriting one half of a packed page makes the other half's page stale, and garbage
  collection of that flash block loses it: `FtlFailures.CollectThenRead` says exactly which
  blocks, and `FtlFailures.SiblingWitness` is a run of five writes and a flush, from a
  fresh controller, after which a block is refused. The ghost field `FTLController.lost`
  follows exactly these blocks.
* Garbage collection does not look whether its reserve block is blank (`src/ftl_controller.cpp:212`,
  `:228-231`, `:258-261`), and `ProgramPage` refuses a page that is programmed already: the
  new data is dropped, and the table leads to what the page held before.
  `FtlReserve.CollectionKeeps` says exactly when a collection keeps every stored block. Up to
  as many writes as there are pages the reserve is always blank (`FtlHost.Run`); one write
  more is too many. `FtlTurnover.FillAndOverwrite`: fill any fresh controller once, overwrite
  block 0, and its first version is read. `FtlTurnover.AlternateOnceTooOften`: write two blocks
  in turn, on any geometry of two or more pages to a block, and one of them is read in an
  old version. Both for any blocks in which no four bytes occur twice.
* The comment at `src/ftl_controller.cpp:59` announces a flush; the code drops the staged half.
* A store that changes the number of chunks of a line frees the old ones before it knows
  that there is room; when there is none, the entry keeps pointing at free chunks, which
  the next store of that size gives to another line (`LineTable.FailedResizeShares`;
  `LineTable.FailedResizeWitness` is such a case, in which a line reads as another one).
  When the line had no chunks, as a line of zeros has none, the refusal is harmless.
* A raw line is stored without a tag, so a decompression that is not told the pattern gives
  it back only if its first byte happens to be that tag (`BdiEngine.RoundTripByTag`).
* The LZ4 decoder given an empty buffer accepts the block `00` only, not the fifteen other
  one-byte blocks that decode to nothing (`Lz4Decoder.Decompress`).
* Some stalls damage the stream of the hardware decompressor (`Lz4Rtl.EdgeBreaks`). Its
  last-byte mark is on byte 4096 only, so a shorter block has none.
* The full signal of the FIFO never settles high, and has no settled value when the last
  slot is asked for (`AxiFifo.NeverFull`).

## Model

| member | source | states |
|---|---|---|
| Lz4Format.RepeatsIsCopyMatch | src/lz4.c:1932-1964 | however a buffer was filled, if it repeats with the match offset it holds what a forward byte-by-byte copy leaves |
| Lz4Format.CopyMatchRepeats | src/lz4.c:1932-1964 | the byte-by-byte copy repeats with the offset and keeps the output before it |
| Lz4Format.ObeysDecodes | src/lz4.c:243-247 | bytes that obey the end-of-block restrictions decode, to the stated size |
| Lz4Format.ObeysRoom | src/lz4.c:243-247 | before the last sequence there is input left for a token and the last literals |
| Lz4Syntax.DecodePrint | src/lz4.c:1893-1970 | the reference decoder gives the meaning of every printed block, whatever the unused nibble of the last token |
| Lz4Syntax.PrintObeys | src/lz4.c:243-247 | a block conforms to the restrictions; its print obeys them byte by byte, and decodes to its meaning |
| Lz4Syntax.DecodesIffPrinted | src/lz4.c:1893-1970 | an input decodes if and only if it is the print of a block with that meaning |
| Lz4Copies.WildCopyIn | src/lz4.c:465-473 | stride copies from the input put the requested bytes in place and touch nothing before them or past the last stride |
| Lz4Copies.StripeRepeats | src/lz4.c:491-511 | copying a stripe from any whole number of periods back, no nearer than the stripe is long, continues the repetition |
| Lz4Copies.WildCopyMatch | src/lz4.c:465-473 | 8-byte stripes from a whole number of periods back leave the forward copy, and nothing before it changes |
| Lz4Copies.FirstEight | src/lz4.c:495-503 | for offsets below 8, inc32table and dec64table give eight bytes of the repetition, and a source a whole number of periods back for the stripes that follow |
| Lz4Copies.PatternFill | src/lz4.c:575-581 | filling with the eight-byte pattern leaves the forward copy |
| Lz4Copies.EightBytePattern | src/lz4.c:550-569 | the pattern for offsets 1, 2 and 4 repeats the last bytes of the output |
| Lz4Copies.MemcpyUsingOffset | src/lz4.c:543-581 | the copy for offsets below 16 (0 included, as zero fill) leaves the forward copy, for every length of at least 4 |
| Lz4Copies.MemcpyUsingOffsetBase | src/lz4.c:491-511 | the same for the offsets without a pattern |
| Lz4Copies.LongMatchCopy | src/lz4.c:530-538 | 32-byte strides in two halves leave the forward copy, for offsets of at least 16 |
| Lz4Copies.ShortMatchCopy | src/lz4.c:2155-2166 | 8 + 8 + 2 bytes leave the first 18 bytes of the forward copy, for offsets of at least 8 |
| Lz4Copies.SafeMatchCopy | src/lz4.c:2421-2455 | the copy near the end of the buffer refuses exactly the matches that reach the last five bytes, and otherwise leaves the forward copy |
| Lz4Decoder.ReadVariableLength | src/lz4.c:1986-2014 | reads the extension bytes up to a limit, or refuses |
| Lz4Decoder.StepFastDecode | src/lz4.c:2082-2122 | from the fast loop's head: what is left to decode is what the reference decoder has left; reads and writes stay inside |
| Lz4Decoder.StepFastMatch | src/lz4.c:2124-2220 | the fast loop's match, with its three kinds of copies, the same |
| Lz4Decoder.StepSafeDecode | src/lz4.c:2226-2272 | the safe loop's head with the two-stage shortcut, the same |
| Lz4Decoder.ShortcutLiterals | src/lz4.c:2240-2271 | the shortcut copies 16 literal bytes and 18 match bytes ahead of time, and only when both are allowed |
| Lz4Decoder.StepSafeLiteralCopyEarly | src/lz4.c:2275-2290 | literal length extension, the same |
| Lz4Decoder.StepSafeLiteralCopy | src/lz4.c:2293-2357 | the last literals end the block exactly at the end of the input; other literals must leave room for a match |
| Lz4Decoder.StepCopyMatch | src/lz4.c:2358-2371 | offset and match length extension, the same |
| Lz4Decoder.StepSafeMatchCopy | src/lz4.c:2373-2455 | the safe loop's match, the same |
| Lz4Decoder.Decompress | src/lz4.c:2022-2464 | for every input and every buffer: terminates inside its bounds; a result that is not negative is the reference decoding; every conforming block that fits is accepted; the exact result for an empty buffer |
| Lz4Decoder.DecompressToNothing | src/lz4.c:2063-2068 | the empty buffer |
| Lz4UnsafeDecoder.ReadLongLengthNoCheck | src/lz4.c:1861-1870 | the unchecked length reader agrees with the format |
| Lz4UnsafeDecoder.CopyMatchBytes | src/lz4.c:1932-1964 | the slow copy, byte by byte, repeats with the offset |
| Lz4UnsafeDecoder.DecompressUnsafe | src/lz4.c:1878-1975 | on every conforming block the byte-by-byte decoder consumes all of the input and leaves the reference decoding |
| Lz4UnsafeDecoder.DecodersAgree | src/lz4.c:1878-2464 | on every conforming block the optimised decoder accepts, and leaves the same bytes as the byte-by-byte decoder |
| Lz4Count.Count | src/lz4.c:688-712 | word loop and 4/2/1-byte tail return exactly the longest common prefix up to the limit |
| Lz4Count.FirstDifference | src/lz4.c:588-619 | the trailing zeros of the difference of two words count their common low bytes |
| Lz4Count.TailExact | src/lz4.c:708-710 | why three comparisons of 4, 2 and 1 bytes find the first difference |
| Lz4Writer.WriteMatchLength | src/lz4.c:1222-1232 | 255s stored four at a time ahead of the position leave the format's length bytes, with at most three bytes of overshoot |
| Lz4Writer.WriteLength | src/lz4.c:1133-1137 | the literal length loop leaves the format's length bytes |
| Lz4Writer.WriteLiterals | src/lz4.c:1120-1145 | token, length and literals in 8-byte stripes leave the print of a run |
| Lz4Writer.WriteMatchCode | src/lz4.c:1221-1235 | adding the match code to a token with an empty nibble, and its extension, leaves the print of a sequence |
| Lz4Search.TablePut | src/lz4.c:1094-1094 | the table remembers, under each hash, the position put there last |
| Lz4Encoder.FindMatch | src/lz4.c:1049-1111 | the search stops at the first probe, of the schedule with one step more every 64 probes, whose four bytes are those at the position last put under its hash, and matches that position; it ends without a match exactly if no probe hits; every entry stays below the position, so without a distance test every offset is 1..65535 |
| Lz4Search.MissesNoRun | src/lz4.c:1053-1110 | two probes in a row inside a run of equal bytes are a hit, so no long run is passed over |
| Lz4Encoder.CatchUp | src/lz4.c:1113-1118 | going back keeps the agreement, and stops exactly at the anchor, at the start of the input, or at a difference |
| Lz4Encoder.FillAndTest | src/lz4.c:1244-1302 | the position two before the end of a match is remembered, then there is a match right here exactly if the remembered position has the same four bytes, then this position is remembered |
| Lz4Encoder.SequenceEncoded | src/lz4.c:1120-1235 | literals and a match make one more sequence that conforms, means the next part of the input, and is as a greedy search makes it |
| Lz4Encoder.SequenceCost | src/lz4.c:1023-1338 | output stays at most consumed + consumed / 255 |
| Lz4Encoder.MatchRoom | src/lz4.c:1196-1199 | the check before the match length is enough for its bytes, the overshoot and the last token |
| Lz4Encoder.EncodeMatch | src/lz4.c:1147-1240 | offset, match length and their budget; the match is the one the search found, keeps five last literals and is as long as it can be; refused only if the sequence overflows the buffer |
| Lz4Encoder.EncodeSequences | src/lz4.c:1011-1307 | what has been encoded conforms, means the input up to the anchor, is the trace of the searches one after the other, and no match is left before the last literals |
| Lz4Encoder.OverflowsBound | include/lz4.h:215-215 | with room for the worst case nothing a greedy search finds overflows |
| Lz4Encoder.CompressGeneric | src/lz4.c:939-1347 | for every input below 64 KB + 11, hash function, acceleration, capacity and limit: stores stay inside; the result is the length of a conforming block that means the input, is within the worst case, and has exactly the matches the search finds; or 0 when these overflow the buffer; never 0 when there is room for the worst case |
| Lz4Unique.NextOnce | src/lz4.c:1027-1302 | from one place of the input, and one content of the table, there is one next match |
| Lz4Unique.SequenceFacts | src/lz4.c:1120-1240 | each sequence of an encoding copies its literals from the input, and its match goes on exactly as far as the input repeats |
| Lz4Unique.GreedyOnce | src/lz4.c:939-1347 | for one input, hash and acceleration the encoder can produce one block only |
| Lz4Periodic.NothingMissed | src/lz4.c:1027-1302 | if the hash keeps the words of the input apart, no probe that missed has the four bytes at the end of any earlier match, or two before it; nor has the end of a match that literals follow |
| Lz4Periodic.HitsWithin | src/lz4.c:1049-1111 | over a block of period `d` a search cannot miss `d` times |
| Lz4Periodic.PeriodicSize | src/lz4.c:939-1347 | a block of period `d` whose words the hash keeps apart is encoded as a whole number of periods, within `d` probes, one match and five last literals; one period, unless the `d`-th probe is two periods away |
| Lz4Periodic.PeriodicForm | src/lz4_compressor.cpp:39-57 | a page of records is compressed to that size, at most 1940 bytes, for all `d` whose `d`-th probe is at 1900 or before |
| Lz4Periodic.RecordPeriodic | src/lz4.c:786-792 | for records 1 to 100, LZ4's hash keeps all words apart |
| Lz4Periodic.RecordWitness | src/lz4_compressor.cpp:17-60 | a page of them is compressed to 126 bytes |
| Lz4Codec.Hash4 | src/lz4.c:786-792 | the hash is an index of the table |
| Lz4Codec.CompressFast | src/lz4.c:1391-1412 | the limit is on exactly when the buffer is below the bound; with the bound it succeeds |
| Lz4Codec.CompressDefault | src/lz4.c:1481-1484 | the same with acceleration 1 |
| Lz4Codec.EncodedDecodes | src/lz4.c:243-247 | what the encoder promises is what the decoder asks for |
| Lz4Codec.EncodesUnique | src/lz4.c:2022-2464 | a block stands for one input only |
| Lz4Codec.RoundTrip | src/lz4.c:939-2464 | for every input, hash, acceleration, capacity, limit and previous contents of the buffers, what the encoder produced decodes to the input in a buffer of exactly its size |
| Lz4Compressor.QuantizeSlot | src/lz4_compressor.cpp:9-15 | the four ranges of sizes, and nothing |
| Lz4Compressor.IsZeroBlock | src/lz4_compressor.cpp:21-29 | the word scan finds exactly the zero blocks |
| Lz4Compressor.Compress | src/lz4_compressor.cpp:17-60 | the compressed form represents the block: zero, below 3072 bytes and what the search makes of it, or raw because that was too large |
| Lz4Compressor.KeptBelow | src/lz4_compressor.cpp:47-57 | what is kept compressed is below 3072 bytes and never takes the full slot; everything else does |
| Lz4Compressor.RepresentsUnique | src/lz4_compressor.cpp:62-83 | a compressed form represents one block only |
| Lz4Compressor.Decompress | src/lz4_compressor.cpp:62-83 | gives back the block that the form represents; bytes that represent none are refused or decode by the format |
| Lz4Compressor.CompressThenDecompress | src/lz4_compressor.cpp:17-83 | the 4 KB codec is lossless on every block |
| Lz4Compressor.ErasedIsNoBlock | src/flash_model.cpp:43-63 | the bytes of an erased page are no compressed block, of whatever size |
| Lz4Greedy.FirstSequence | src/lz4.c:1023-1307 | on bytes that do not repeat followed by a run, the first match is in the run and goes to five bytes before the end |
| Lz4Greedy.TailedSize | src/lz4.c:939-1347 | such a block of `n` bytes and a run is compressed to `n` bytes and less than 190 more |
| Lz4Greedy.TailedForm | src/lz4_compressor.cpp:39-57 | and so it is kept compressed, with that size |
| Lz4Greedy.NoneRecursRaw | src/lz4_compressor.cpp:39-57 | a block in which no four bytes occur twice is kept as it is |
| Lz4Greedy.DigitsNeverRecur | src/lz4_compressor.cpp:39-57 | a counter of two digits is such a block |
| Lz4Greedy.TailedRaw | src/lz4_compressor.cpp:47-52 | such a block of 3072 bytes and more (up to 3800) before the run is kept as it is |
| Lz4Greedy.CounterTailed | src/lz4_compressor.cpp:39-57 | a counter of two digits and a run is such a block |
| FlashModel.Flash.constructor | src/flash_model.cpp:9-15 | a blank array |
| FlashModel.Flash.ProgramPage | src/flash_model.cpp:17-41 | programs exactly the erased pages, one page at a time |
| FlashModel.Flash.ReadPage | src/flash_model.cpp:43-63 | a programmed page as it is, any other as 0xFF |
| FlashModel.Flash.EraseBlock | src/flash_model.cpp:65-85 | the block is blank, with no stale pages |
| FlashModel.Flash.InvalidatePage | src/flash_model.cpp:87-95 | a valid page goes stale and is counted once |
| FlashModel.StaleCountMore | src/flash_model.cpp:87-95 | the count of a block equals the number of its programmed pages that are not valid |
| FlashModel.InvalidatedOk | src/flash_model.cpp:87-95 | invalidating keeps that equality |
| FlashModel.ProgrammedOk | src/flash_model.cpp:17-41 | programming keeps it |
| FtlSteps.DetachCorrect | src/ftl_controller.cpp:53-62 | making the old page stale and dropping the staged version changes no other block |
| FtlSteps.DetachOwners | src/ftl_controller.cpp:53-62 | the owner lists of valid pages stay exact |
| FtlSteps.ProgramCorrect | src/ftl_controller.cpp:127-127 | programming a blank page changes no block |
| FtlSteps.AttachCorrect | src/ftl_controller.cpp:89-105 | mapping a block to the page that holds it |
| FtlSteps.AttachOwners | src/ftl_controller.cpp:104-105 | and naming it there keeps the owner lists exact |
| FtlSteps.MoveCorrect | src/ftl_controller.cpp:226-247 | migrating a page keeps the contents of all blocks |
| FtlSteps.MoveOwners | src/ftl_controller.cpp:235-247 | handing over the owner list keeps the owner lists exact |
| FtlSteps.EraseConsistent | src/ftl_controller.cpp:251-252 | erasing a block on which nothing live is left |
| FtlRaw.RawDetach | src/ftl_controller.cpp:53-62 | with raw and zero blocks only, no page has two owners, so a stale page is nobody's |
| FtlMachine.RepointIsRepointed | src/ftl_controller.cpp:235-241 | re-pointing owner by owner changes exactly the blocks in the owner list |
| FtlMachine.NextReserveMoves | src/ftl_controller.cpp:257-261 | with three blocks or more the new reserve is neither the old one nor the victim, and going round from old to new only the victim is skipped |
| FtlMachine.NextReserveStays | src/ftl_controller.cpp:257-261 | the reserve stays the same exactly if there are two blocks |
| FtlMachine.WrittenRotates | src/ftl_controller.cpp:47-262 | so after each write: no two collections in a row have the same reserve |
| FtlMachine.CollectedUsed | src/ftl_controller.cpp:191-262 | a collection is paid for by a full block of pages |
| FtlMachine.WrittenUsed | src/ftl_controller.cpp:47-140 | a write fills at most one page more, a zero block none |
| FtlController.FTLController.TraceMeans | src/ftl_controller.cpp:191-262 | the ghost state says what the collections so far were like; the first total_blocks - 1 all found a blank reserve, whatever was written; as long as all did, raw and zero blocks are never lost |
| FtlController.FTLController.constructor | src/ftl_controller.cpp:9-20 | every block is zeros |
| FtlController.FTLController.SelectVictim | src/ftl_controller.cpp:194-206 | the first block, the reserve aside, with the most stale pages |
| FtlController.FTLController.MigratePage | src/ftl_controller.cpp:220-248 | one valid page moves, contents and owner lists kept |
| FtlController.FTLController.Evacuate | src/ftl_controller.cpp:218-252 | the victim ends blank, the tables are as migrated and erased, the contents of every block that is not lost are kept |
| FtlController.FTLController.RunGarbageCollectionIfNeeded | src/ftl_controller.cpp:191-262 | the new state, as a function of the old one; from a blank reserve: contents kept except for exactly the live blocks on stale pages of the victim, owner lists exact, active block blank, reserve different from active |
| FtlController.FTLController.FlushStagedWrites | src/ftl_controller.cpp:22-45 | the new state, as a function of the old one: the staged block goes to flash, contents kept; it costs one programmed page |
| FtlController.FTLController.WriteBlock | src/ftl_controller.cpp:47-140 | the new state, as a function of the old one and the compressed form; the block stores what was written, every other block what it did; each counter goes up exactly when its case occurs (write accepted, zero block, pack, raw page, staged half dropped) |
| FtlController.FTLController.AccountMeans | src/ftl_controller.cpp:47-262 | in every state pages programmed + zero blocks + packs + staged halves (waiting or dropped) are at most host writes + migrated pages, and exactly as many while every collection has found a blank reserve; collections with a victim and pages migrated are counted exactly |
| FtlController.FTLController.Place | src/ftl_controller.cpp:67-139 | zero blocks, halves and raw pages each go where they are found again |
| FtlController.FTLController.ReadBlock | src/ftl_controller.cpp:142-189 | changes no state; returns what the block stores, for every block not lost; in every state, an entry of a whole page reads as that page is, programmed or erased (then 0xFF), one of a half page only if its bytes decode, never when erased, and an unmapped one as zeros |
| FtlHost.LastWrite | src/ftl_controller.cpp:142-189 | in the plain map a block reads as the last one written |
| FtlHost.NeverWritten | src/ftl_controller.cpp:142-189 | or as it was in the beginning |
| FtlHost.AfterUsed | src/ftl_controller.cpp:22-140 | over a run, pages filled are at most the writes of blocks that are not zero |
| FtlHost.FewCollections | src/ftl_controller.cpp:191-262 | up to as many such writes as there are pages, there are fewer collections than blocks |
| FtlHost.Perform | src/ftl_controller.cpp:22-189 | one host operation: the new state as a function of the old one, and the reply of the plain map |
| FtlHost.Run | src/ftl_controller.cpp:22-262 | every run from a fresh controller of any geometry: the final state and all collections are a function of operations and compressed forms; the replies are those of the plain map if each collection found a blank reserve and left no live block behind and no size was 2049..3071; if blocks were left behind, all others still read right; the reserve is blank by itself up to as many writes as there are pages, and with raw and zero blocks only nothing is left behind as long as it is; with three blocks or more no two collections in a row have the same reserve; the counters are those that operations, forms and collections determine, and account for the pages programmed |
| FtlFailures.WriteThenRead | src/ftl_controller.cpp:118-189 | a write followed by a read returns the block if and only if its size is not 2049..3071, or the compressed bytes are the block |
| FtlFailures.MidSizeReadsWrong | src/lz4_compressor.cpp:48-57 | every block of 2049 to 2700 bytes without repetition, the first below 240, and a run, written to a fresh controller of any geometry, reads back as something else |
| FtlFailures.MidSizeWitness | src/ftl_controller.cpp:118-189 | there is such a block |
| FtlFailures.MidSizes | src/lz4_compressor.cpp:47-57 | the mid sizes are exactly 2049 to 3071, and the sizes that fit half a page 1 to 2048 |
| FtlFailures.OtherSizesReadRight | src/ftl_controller.cpp:47-189 | such blocks outside the mid sizes read back as written: up to 1840 bytes as half a page, from 3072 on kept raw |
| FtlFailures.LargeWitness | src/lz4_compressor.cpp:47-52 | for instance a counter of 3200 bytes and a run |
| FtlFailures.RecordsReadRight | src/ftl_controller.cpp:47-189 | a page of records takes half a page of flash, and reads back as written |
| FtlFailures.CollectThenRead | src/ftl_controller.cpp:191-262 | after a collection exactly the half-page blocks on stale pages of its victim are refused, and all others that were stored read as before |
| FtlFailures.FlushLoses | src/ftl_controller.cpp:22-45 | with two pages to a block, blocks 0 and 1 packed on the first page, 2 and 3 on the second, and block 2 overwritten and staged: the flush leaves block 3 pointing at an erased page |
| FtlFailures.SiblingLost | src/ftl_controller.cpp:47-262 | five writes of any compressible blocks to a fresh controller, and a flush, after which a block is refused |
| FtlFailures.SiblingWitness | src/ftl_controller.cpp:47-262 | for instance with blocks of one value each |
| FtlReserve.MigratedMoves | src/ftl_controller.cpp:218-248 | migration moves every live block of the victim to the reserve page that the rank of its page gives, and that page ends with the data moved if it was blank, else as it was |
| FtlReserve.CollectionKeeps | src/ftl_controller.cpp:191-262 | whatever the reserve holds, and with nothing live on stale pages of the victim: after a collection all stored blocks are still stored if and only if each block on the victim found its reserve page blank, or already holding its contents |
| FtlReserve.WholePageRoom | src/ftl_controller.cpp:228-231 | for a whole page this is: blank, or the same bytes |
| FtlReserve.CollectThenReadWhole | src/ftl_controller.cpp:142-262 | through the operations: the read after the collection succeeds, and is right if and only if there was room in that sense |
| FtlReserve.RotationLands | src/ftl_controller.cpp:208-214 | with no victim the next write goes to the reserve; it lands if and only if the first page there is blank or has those bytes already |
| FtlTurnover.FillOne | src/ftl_controller.cpp:118-139 | filling the device block by block: one write more, with its collection when a block is full |
| FtlTurnover.OverwriteDropped | src/ftl_controller.cpp:47-262 | when all pages are filled, the overwrite of block 0 is mapped to its own old page, which keeps the first bytes |
| FtlTurnover.FillAndOverwrite | src/ftl_controller.cpp:47-262 | every page of a fresh controller of any geometry written once, and block 0 again: it is read as first written |
| FtlTurnover.FillWitness | src/ftl_controller.cpp:47-262 | for instance with counters of two digits |
| FtlTurnover.MigratedLast | src/ftl_controller.cpp:218-248 | when only the last page of the victim is valid, migration moves that page and re-points its owners, and changes nothing else |
| FtlTurnover.TurnOne | src/ftl_controller.cpp:47-262 | two blocks written in turn: after each write, which pages are blank, valid and stale, and where both blocks are |
| FtlTurnover.TurnTooFar | src/ftl_controller.cpp:47-262 | when the reserve pointer has gone round, the block that has to be moved is mapped to the first page that was ever moved |
| FtlTurnover.AlternateOnceTooOften | src/ftl_controller.cpp:47-262 | two blocks written in turn to a fresh controller, of any geometry with two or more pages to a block, once more than there are pages: one is read as it was when the first flash block filled up |
| FtlTurnover.AlternateWitness | src/ftl_controller.cpp:47-262 | for instance with counters of two digits |
| FtlRounds.CollectsNothing | src/ftl_controller.cpp:191-262 | a victim without valid pages is erased, and nothing else changes but the positions |
| FtlRounds.PingPongMore | src/ftl_controller.cpp:47-262 | two blocks in turn on flash blocks 0 and 2 of one page: one write more, with the pointer past the victim, and all other blocks blank |
| FtlRounds.RewriteForever | src/ftl_controller.cpp:47-262 | one block rewritten any number of times, reads in between, on any geometry: every reply is that of the plain map |
| FtlRounds.PingPongForever | src/ftl_controller.cpp:47-262 | two blocks rewritten in turn any number of times, on an even number of flash blocks of one page: every reply is that of the plain map |
| BdiEngine.QuantizedSlotSize | legacy/src/bdi_engine.cpp:10-15 | the smallest multiple of 16 that fits, up to 64 |
| BdiEngine.PayloadUnique | legacy/src/bdi_engine.cpp:191-303 | a payload decodes to one line |
| BdiEngine.PayloadFromSlot | legacy/src/line_table.cpp:158-161 | also when it is read from a longer slot |
| BdiEngine.PayloadFits | legacy/src/bdi_engine.cpp:56-178 | a line that some payload of a delta pattern decodes to passes that pattern's test |
| BdiEngine.TryDeltas | legacy/src/bdi_engine.cpp:56-66 | the test is exactly that all differences fit |
| BdiEngine.EmitDeltas | legacy/src/bdi_engine.cpp:66-76 | base and differences decode to the line |
| BdiEngine.Compress | legacy/src/bdi_engine.cpp:17-185 | the payload decodes to the line, and no payload of any pattern that does is smaller |
| BdiEngine.DecompressRaw | legacy/src/bdi_engine.cpp:191-303 | with the pattern given, or taken from the first byte: refuses exactly unknown tags and buffers that are too short, and otherwise leaves what the payload decodes to |
| BdiEngine.RoundTrip | legacy/src/bdi_engine.cpp:17-303 | every line comes back, whatever follows the payload in its slot |
| BdiEngine.RoundTripByTag | legacy/src/bdi_engine.cpp:17-303 | with the pattern taken from the first byte, a line comes back if and only if it was compressed, or starts with the tag of raw lines |
| LineTable.LinesDisjoint | legacy/src/line_table.cpp:41-137 | live extents have no chunk in common and are below the bump pointer |
| LineTable.FreeDisjoint | legacy/src/line_table.cpp:41-137 | nor has a live extent with a free one |
| LineTable.FreeListsDisjoint | legacy/src/line_table.cpp:41-91 | nor have two free ones |
| LineTable.Covered | legacy/src/line_table.cpp:41-137 | every chunk below the bump pointer is in a live or a free extent |
| LineTable.FreedTiling | legacy/src/line_table.cpp:82-91 | freeing keeps the tiling |
| LineTable.PoppedTiling | legacy/src/line_table.cpp:45-68 | so does taking from a free list |
| LineTable.BumpedTiling | legacy/src/line_table.cpp:70-76 | so does taking at the bump pointer |
| LineTable.ClaimedTiling | legacy/src/line_table.cpp:130-134 | so does giving the extent to a line |
| LineTable.HeldUpdate | legacy/src/line_table.cpp:41-137 | the chunks held by live lines, when one entry changes |
| LineTable.OthersHold | legacy/src/line_table.cpp:123-127 | storing into one extent leaves the lines in others |
| LineTable.MemoryLineTable.constructor | legacy/src/line_table.cpp:9-24 | an empty table: all lines are zeros |
| LineTable.MemoryLineTable.Reset | legacy/src/line_table.cpp:26-39 | back to that |
| LineTable.MemoryLineTable.AllocateChunks | legacy/src/line_table.cpp:41-80 | finds chunks exactly when the free list or the rest of memory has them; what it gives out belongs to nobody |
| LineTable.MemoryLineTable.FreeChunks | legacy/src/line_table.cpp:82-91 | the extent goes to the end of its free list, tiling and count kept |
| LineTable.MemoryLineTable.StoreLine | legacy/src/line_table.cpp:93-137 | succeeds exactly when there is room; then the line is stored and all others are kept; a refusal does harm exactly if the line had chunks, and what it leaves behind; the count of allocated chunks equals the sum over live lines |
| LineTable.NeededFewest | legacy/src/line_table.cpp:96-100 | the chunks taken for the smallest payload are the fewest that any payload of the line fits |
| LineTable.FewestZero | legacy/src/line_table.cpp:96-100 | they are none exactly for a line of zeros |
| LineTable.StoreCompressed | legacy/src/line_table.cpp:93-137 | a line that is compressed and stored holds the fewest chunks it can; this succeeds exactly when there is room for that many, for a first store whenever they are left at the bump pointer |
| LineTable.OneChunkHolds | legacy/src/line_table.cpp:93-137 | one chunk of memory is enough for the line of the words 1000 to 1007 |
| LineTable.MemoryLineTable.LoadLine | legacy/src/line_table.cpp:139-162 | the line last stored, zeros if none |
| LineTable.MemoryLineTable.EnoughRoom | legacy/src/line_table.cpp:41-121 | with ten chunks per line no store is ever refused |
| LineTable.RoomBound | legacy/src/line_table.cpp:41-121 | all extents ever made, and the one needed now, are within ten chunks per line |
| LineTable.BoundedExchange | legacy/src/line_table.cpp:101-121 | no size ever has more extents, live and free, than there are lines |
| LineTable.FailedResizeShares | legacy/src/line_table.cpp:107-121 | a resize fails exactly when there is no room; then the next first store of the freed size is given chunks that another line still points at |
| LineTable.FailedResizeWitness | legacy/src/line_table.cpp:93-162 | two lines and one chunk: a stored line, a refused one and another, after which the first reads as the last |
| HyperRam.LinePatched | legacy/src/hyper_ram_controller.cpp:84-93 | patching a line patches the flat memory |
| HyperRam.LineSlice | legacy/src/hyper_ram_controller.cpp:40-50 | bytes of a line are bytes of the flat memory |
| HyperRam.HyperRAMController.constructor | legacy/src/hyper_ram_controller.cpp:10-14 | a memory of zeros |
| HyperRam.HyperRAMController.Read | legacy/src/hyper_ram_controller.cpp:27-63 | any range inside the capacity, across lines, reads as the flat memory; any other is refused |
| HyperRam.HyperRAMController.MergedLine | legacy/src/hyper_ram_controller.cpp:84-93 | read-modify-write and the full-line path both give the patched line |
| HyperRam.HyperRAMController.WriteLine | legacy/src/hyper_ram_controller.cpp:84-106 | one line is patched, or nothing changes; the histogram counts one pattern, also when the store is refused |
| HyperRam.HyperRAMController.Write | legacy/src/hyper_ram_controller.cpp:65-119 | the written range holds the data and no other byte changes; a refused write has landed up to a line boundary, and does harm exactly if the line it stopped at had chunks; with ten chunks per line none is refused |
| HyperRam.Untouched | legacy/src/hyper_ram_controller.cpp:65-119 | in the flat memory a byte outside every written range never changes |
| HyperRam.LastCovering | legacy/src/hyper_ram_controller.cpp:27-119 | and any other is as the last write that covered it left it |
| HyperRam.Perform | legacy/src/hyper_ram_controller.cpp:27-119 | one operation against the flat memory; a refused write, which line it stopped at, and that it does harm if and only if the flat memory had bytes other than zero in that line |
| HyperRam.Run | legacy/src/hyper_ram_controller.cpp:27-119 | every run from a fresh controller replies like the flat memory as long as no refused write has done harm: this is so if and only if each refused write stopped at a line that was zeros in the flat memory; with 160 bytes per line none is refused; each line holds the fewest chunks it can, and the chunks in use are their sum |
| Lz4Rtl.TokenEdge | hdl/lz4_decompressor_4k.v:100-119 | after a token, what is left to decode is what the reference decoder has left |
| Lz4Rtl.ExtLitEdge | hdl/lz4_decompressor_4k.v:121-129 | the same for literal length bytes; 16 bits suffice |
| Lz4Rtl.LiteralEdge | hdl/lz4_decompressor_4k.v:131-159 | the same for a literal, handed on once |
| Lz4Rtl.OffsetLEdge | hdl/lz4_decompressor_4k.v:161-168 | the same for the low byte of the offset |
| Lz4Rtl.OffsetHEdge | hdl/lz4_decompressor_4k.v:170-183 | the same for the high byte |
| Lz4Rtl.ExtMatchEdge | hdl/lz4_decompressor_4k.v:185-193 | the same for match length bytes |
| Lz4Rtl.MatchCopyEdge | hdl/lz4_decompressor_4k.v:195-219 | the same for one byte of a match |
| Lz4Rtl.CopyFirst | hdl/lz4_decompressor_4k.v:195-219 | a match can be copied from its first byte on |
| Lz4Rtl.DoneEdge | hdl/lz4_decompressor_4k.v:221-228 | the last edge is harmless if and only if everything arrived |
| Lz4Rtl.EdgeKeeps | hdl/lz4_decompressor_4k.v:58-233 | every edge with a harmless stall, or none, keeps circuit, producer and consumer in step |
| Lz4Rtl.EdgeBreaks | hdl/lz4_decompressor_4k.v:131-219 | every other stall forgets a literal or damages the output |
| Lz4Rtl.EdgeProgress | hdl/lz4_decompressor_4k.v:58-233 | edges without a stall are harmless and get closer to the end |
| Lz4Rtl.StartEdge | hdl/lz4_decompressor_4k.v:82-97 | a start edge from rest, whatever pointers, counters, flags and memory hold: nothing decoded, nothing delivered |
| Lz4Rtl.RestThenStart | hdl/lz4_decompressor_4k.v:82-97 | the same after any number of edges at rest |
| Lz4Rtl.DecompressStream | hdl/lz4_decompressor_4k.v:58-233 | every conforming block of 1..4096 decoded bytes, from any registers at rest, for every plan of stalls: the outcome says exactly whether one of them did harm; if none did, the circuit goes on to the end, and the consumer gets the reference decoding, each byte once and in order; done, with the right byte count; the last-byte mark on byte 4096 only |
| Lz4Rtl.DecompressAll | hdl/lz4_decompressor_4k.v:58-233 | any number of blocks one after the other, with any pauses: each is delivered exactly, and with its own byte count, up to the first in which a stall does harm |
| GrayCode.GrayInjective | legacy/hdl/axi_async_fifo.v:49-49 | different pointers have different codes |
| GrayCode.GrayNeighbours | legacy/hdl/axi_async_fifo.v:49-49 | codes of neighbours differ in one bit |
| GrayCode.GrayWraps | legacy/hdl/axi_async_fifo.v:49-49 | also when the pointer wraps |
| GrayCode.MixIsEither | legacy/hdl/axi_async_fifo.v:68-76 | a synchroniser that catches any mix of bits of neighbours catches one of the two |
| GrayCode.HalfwayRound | legacy/hdl/axi_async_fifo.v:78-80 | inverting the top two bits of a code moves the pointer by DEPTH |
| AxiFifo.FullTest | legacy/hdl/axi_async_fifo.v:78-80 | the full test holds if and only if the pointers are exactly DEPTH apart |
| AxiFifo.EmptyTest | legacy/hdl/axi_async_fifo.v:112-112 | the empty test holds if and only if all words known to the reader are read |
| AxiFifo.SettledValues | legacy/hdl/axi_async_fifo.v:48-49 | the full signal never settles high, and settles low unless the last slot is asked for |
| AxiFifo.NeverFull | legacy/hdl/axi_async_fifo.v:48-80 | the same in every reachable state |
| AxiFifo.CaughtEither | legacy/hdl/axi_async_fifo.v:68-109 | the first synchroniser catches the pointer before or after its step |
| AxiFifo.WriteKeeps | legacy/hdl/axi_async_fifo.v:51-76 | a write edge keeps the invariant |
| AxiFifo.ReadKeeps | legacy/hdl/axi_async_fifo.v:88-109 | a read edge keeps it |
| AxiFifo.BothKeep | legacy/hdl/axi_async_fifo.v:51-109 | simultaneous edges keep it, whatever bits the synchronisers catch |
| AxiFifo.SameWord | legacy/hdl/axi_async_fifo.v:61-99 | the cell read is not the cell written at the same edge |
| AxiFifo.Safety | legacy/hdl/axi_async_fifo.v:48-112 | for every interleaving of the clocks and every ADDR_WIDTH of at least 2, the words read are a prefix of the words written, and fewer than DEPTH are in between |

## Left out

- Lz4Codec.CompressFast: inputs of 64 KB + 11 bytes and more (the byU32 and byPtr tables) are not modelled; the repository compresses 4 KB blocks.
- LZ4 streaming, dictionaries, partial decoding, fill-output mode and the obsolete entry points; the repository does not call them.
- Lz4Count.FirstDifference: one little-endian 64-bit model; other ways of counting bits, byte orders and word sizes are left out.
- Pointers are integers: the tests for pointer overflow in the decoder, and null pointers, have nothing to model. Negative sizes given to the C entry points are left out.
- Lz4Codec.CompressDefault: the same inputs are left out.
- FtlHost.Perform: nothing is said about the reply to a read of a lost block, see ReadBlock.
- Lz4UnsafeDecoder.DecompressUnsafe: stated for conforming blocks only, because that decoder trusts its input; its error returns are modelled but cannot occur then.
- FtlController.FTLController.WriteBlock: block sizes are exactly 4096 bytes, and geometries have at least two blocks.
- FtlController.FTLController.FlushStagedWrites: one call at a time; the source takes no lock here.
- FtlController.FTLController.ReadBlock: a half page that is in use again by other data is said to be refused or to read as what those bytes decode to, and not which; which bytes a page holds after further writes follows from `State`.
- FlashModel.Flash.EraseBlock: blocks are values in a sequence, so the loop over pages is one update; erase latency and wear figures beyond the erase count are left out.
- Latencies, atomics, mutexes, ratios and percentages, telemetry snapshots and resets.
- LineTable.MemoryLineTable.AllocateChunks: the four free lists are one sequence of lists indexed by size; at most 2^24 chunks, since offsets are stored in 24 bits.
- HyperRam.HyperRAMController.Write: after a resizing store has run out of memory nothing is said about the contents.
- Lz4Rtl.DecompressStream: blocks that decode to nothing or to more than 4096 bytes, and malformed blocks, are left out: the circuit waits for more input, or overwrites its pointers. Once a stall has done harm nothing more is said: what the consumer gets then may still be right, if a forgotten byte and a repeated one are equal.
- The register states that the 4-bit state field could hold beyond the nine named ones, and reset in the middle of a run, for both circuits.
- AxiFifo.Safety: no progress is claimed; with one slot left and a write asked for, the full signal has no settled value and the step does not happen.
- The top level of the legacy hardware and its line encoder and decoder, testbenches, benchmarks and tools.
