# Verification of the compression core

This project models the DEFLATE codec that performs the server's response compression
(`deps/miniz_tdef.c`, `deps/miniz_tinfl.c`, and the checksums of `deps/miniz.c`) and proves that inflating undoes
deflating. Beside it stand the teardown of a connection (`src/uvhttp_connection.c`) and the file index of an archive
(`deps/miniz_zip.c`).

The meaning of a stream is one set of functions, `Format` and `Wrapper`: readers of a bit string that follow
sections 3.2.2 to 3.2.7 of RFC 1951 and section 2 of RFC 1950. They know nothing of the C code. Compressor and
decompressor are imperative models of it, with its buffers as arrays and its fields as fields, and each is proved
against those readers:

- the compressor (`Window`, `Parser`, `TokenBuffer`, `RadixSort`, `MinRedundancy`, `LengthLimit`, `HuffTable`,
  `CodeLengthRle`, `BitWriter`, `BlockEmitter`, `StoredBlock`, `BlockFlush`, `Compressor`) emits bits that the
  readers turn into the input, over every sequence of calls, every setting of the flags, every size of the output
  buffers and every flush mode;
- how much it emits is bounded: `CodeCost` and `HuffmanTree` prove the code lengths cheapest, `LimitCost` what the limit
  of 15 bits adds, `SymbolCounts` and `TokenCounts` carry that to the recorded tokens; so every block fits its region;
- the decompressor (`PrefixTree`, `TreeWalk`, `TreeSize`, `LookupTable`, `BitReader`, `SymbolReader`,
  `StoredReader`, `TableReader`, `MatchCopy`, `BodyReader`, `Decompressor`) is exact on any bytes: its status, its
  output and what it consumes are those of `LaxFormat` and `LaxWrapper`, readers that go on where the C code's tables
  do and say what stopped them where it stops. `Truncation` proves that these read whatever the RFC readers read, and
  run short on any front of it; `Completeness` when they read nothing else. `RingCopy` is the match copy into a ring,
  `InflateRing` the ring that `mz_inflate` drains;
- `RoundTrip` puts the two together, from the start of the stream or from a full flush on;
- `Teardown` follows a connection through every interleaving of events, `FileIndex` sorts and searches names, `Crc32` is
  the archive's checksum.

The portable branch of the preprocessor is modelled (`deps/miniz.h:219-227` sets unaligned access to 0), with the
64-bit bit buffer of the decompressor. Unsigned 32-bit positions wrap explicitly in the ring, the chains and the block
positions; 16-bit chain links alias explicitly; checksum sums are shown not to overflow. Macros that the C code expands
in place are methods, and the long functions are cut into methods along their phases. Memory that C leaves
uninitialised (the ring, stale flag bytes) is arbitrary. Small constant tables that the encoder indexes
(`deps/miniz_tdef.c:39-93`) appear as the closed forms of section 3.2.5; the decoder's tables are written out and
proved equal to the same closed forms.

## Findings

- The decompressor takes some streams that are not in the format. An accepted code reads every bit string as the format
  does if and only if it fills the code space (`Completeness.ReadsExactly`); the single code, or none, that
  `deps/miniz_tinfl.c:349-352` also accepts reads what is left over as symbol 0. With complete codes, an input that gives
  DONE is a stream of the format if and only if no block in it uses the length symbols 286 and 287, which the tables at
  `deps/miniz_tinfl.c:189-190` make lengths of zero (`Decompressor.DoneExactly`; `Completeness.ReservedTaken` is such an
  input).
- A failed accept lowers a counter that was never raised. `src/uvhttp_server.c:212-216` frees the new connection before
  `active_connections` is incremented, and the last close callback decrements it all the same
  (`src/uvhttp_connection.c:820-825`). The counter comes back to its value if and only if the accept succeeded; from 0 a
  single failed accept takes it to the largest `size_t` (`Teardown.WholeLife`).
- A compressed block always fits its region. The comment at `deps/miniz_tdef.c:677` calls the other case "extremely
  unlikely (if not impossible)"; it is impossible, so the static re-emission after it is never reached
  (`BlockFlush.CodedBlock`) and the assertion at `deps/miniz_tdef.c:718`, which builds with `NDEBUG` do not check, always
  holds (`Compressor.EmitBlock`). `BlockEmitter.CompressBlock` bounds a block by 659937 of the region's 681440 bits.

## Model

| member | source | states |
|---|---|---|
| `RoundTrip.RoundTripChunks` | deps/miniz_tdef.c:1334-1338 | compressing through a callback, in any chunks and with any sync or full flushes between them, and decompressing in one call gives back exactly the input, for every setting of the flags and every length; no call can fail |
| `RoundTrip.RoundTripCalls` | deps/miniz_tdef.c:1266-1332 | the same when the caller drains into buffers of any sizes, offers any amount of input per call and asks for any flushes: every unending schedule of calls that offer and accept at least a byte comes to DONE, and the result inflates to exactly the input |
| `RoundTrip.CompressChunks` | deps/miniz_tdef.c:1334-1338 | what the callback has received after FINISH decodes, by the RFC 1951 reader, to the concatenation of all chunks |
| `RoundTrip.CompressCalls` | deps/miniz_tdef.c:1266-1332 | the calls end with DONE, whatever their sizes, and the bytes collected from every output buffer decode to the whole input |
| `Canonical.PrefixFree` | deps/miniz_tdef.c:255-268 | no reversed code is the start of another, for every length vector a decoder accepts |
| `Canonical.CodeBound` | deps/miniz_tdef.c:255-268 | every code fits in its length |
| `Encoding.ReadSymBack` | deps/miniz_tdef.c:255-268 | a symbol's reversed code, wherever it stands in a bit string, is read back as that symbol and nothing else |
| `Encoding.ReadItemBack` | deps/miniz_tdef.c:544-589 | a literal or a length/distance pair with its extra bits is read back as the same token |
| `Encoding.ReadBodyBack` | deps/miniz_tdef.c:544-589 | a token sequence and its end code are read back as exactly the bytes the tokens stand for |
| `Encoding.ReadLensBack` | deps/miniz_tdef.c:337-422 | the 16/17/18 run-length symbols are read back as exactly the lengths they were made from |
| `Encoding.ReadTablesBack` | deps/miniz_tdef.c:337-422 | a dynamic block header is read back as the two length vectors it was made from |
| `FixedCodes.FixedDecodable` | deps/miniz_tinfl.c:298-309 | the fixed lengths are a complete code |
| `StoredBlock.ReadStoredBack` | deps/miniz_tdef.c:663-675 | a stored block at any bit offset is read back as its bytes |
| `Wrapper.AddBlock` | deps/miniz_tdef.c:647-683 | appending a block that is not final to a stream extends what any decoder of any continuation has produced |
| `Wrapper.EndBlock` | deps/miniz_tdef.c:647-683 | the final block ends the stream there, whatever bytes follow |
| `Wrapper.Finished` | deps/miniz_tdef.c:687-702 | a final block, padding and checksum unwrap to the contents, whatever bytes follow |
| `RadixSort.RadixSortSyms` | deps/miniz_tdef.c:100-131 | the result, in whichever of the two arrays, is sorted by key and a permutation of the input, also when the second pass is dropped |
| `RadixSort.BucketsSorted` | deps/miniz_tdef.c:122-128 | one stable pass turns an order on the low digits into an order on one digit more |
| `RadixSort.BucketsPermute` | deps/miniz_tdef.c:122-128 | one pass permutes |
| `RadixSort.OnePassSorted` | deps/miniz_tdef.c:112-115 | dropping the pass over an all-zero high byte loses nothing |
| `MinRedundancy.CalculateMinimumRedundancy` | deps/miniz_tdef.c:134-187 | in place, positive ascending counts with sum below 2^16 become the code lengths of a cheapest prefix code: no lengths with Kraft sum at most 1 cost less; they never increase with the index, fill the code space exactly and are at most 24 |
| `MinRedundancy.Merge` | deps/miniz_tdef.c:144-163 | phase 1 leaves the parent pointers of a tree in which every node weighs exactly what its two children weigh, and joins the two lightest nodes waiting each time |
| `MinRedundancy.Depths` | deps/miniz_tdef.c:164-166 | phase 2 turns parent pointers into depths |
| `MinRedundancy.LeafDepths` | deps/miniz_tdef.c:167-186 | phase 3 gives every leaf a length one more than the depth of the node it was joined into, which fills the code space, without running out of slots |
| `HuffmanTree.DepthBound` | deps/miniz_tdef.c:243-244 | weights below 2^16 bound every depth through Fibonacci growth, which keeps lengths inside the 33-entry histogram |
| `LengthLimit.EnforceMaxCodeSize` | deps/miniz_tdef.c:194-216 | the limiter ends with the same number of symbols, none beyond the limit, and a Kraft sum of exactly 2^max; below the shortest donor nothing has changed, and above it no more is left over than one split code |
| `LengthLimit.SplitPass` | deps/miniz_tdef.c:206-214 | each pass finds a donor length, lowers the Kraft total by exactly one, keeps the number of symbols, and moves the boundary of what is untouched no further than its donor |
| `LengthLimit.NoDonor` | deps/miniz_tdef.c:206-214 | while the total is too large a shorter length is in use |
| `LengthLimit.CollapseOverdraws` | deps/miniz_tdef.c:200-203 | collapsing longer lengths onto the limit leaves enough codes at the limit for every pass |
| `HuffTable.Table.Optimize` | deps/miniz_tdef.c:218-269 | from counts with sum below 2^16 come lengths a decoder accepts, a symbol having one exactly when it was counted, and their canonical reversed codes; with the limit 15 and up to 286 symbols they cost at most one bit per symbol counted more than any prefix code |
| `HuffTable.SortAndMeasure` | deps/miniz_tdef.c:233-241 | collecting, sorting and measuring the used symbols keeps each of them once and measures a cheapest code |
| `HuffTable.AssignLengths` | deps/miniz_tdef.c:248-252 | handing lengths out from the histogram gives each used symbol one, the longest to the lightest, and leaves the histogram true |
| `HuffTable.AssignCodes` | deps/miniz_tdef.c:255-268 | the code of every symbol with a length is its canonical code, bit-reversed |
| `HuffTable.FullIsDecodable` | deps/miniz_tinfl.c:342-352 | of two or more used symbols, the lengths have Kraft sum 2^max exactly if the decoder's check total == 65536 accepts them |
| `BitWriter.Writer.PutBits` | deps/miniz_tdef.c:271-287 | the bits put are appended to the bits of the stream, low bit first; bytes past the region's end are dropped and nothing outside the region is written |
| `BitWriter.Writer.NothingDropped` | deps/miniz_tdef.c:271-287 | while the region is not full, its bytes and the bit buffer are exactly the bits put; it is not full while they fit |
| `BitWriter.Writer.Restore` | deps/miniz_tdef.c:661-662 | rewinding to a saved cursor and bit buffer undoes everything put since |
| `TokenBuffer.Tokens.RecordLiteral` | deps/miniz_tdef.c:1059-1070 | the buffer, its flag bytes and both symbol counts stay those of the tokens recorded, one literal more |
| `TokenBuffer.Tokens.RecordMatch` | deps/miniz_tdef.c:1072-1098 | the same with one match more |
| `TokenBuffer.Tokens.Finish` | deps/miniz_tdef.c:618-619 | the fix-up of the partial last flag byte makes every flag readable and changes no token |
| `TokenBuffer.Tokens.ReadToken` | deps/miniz_tdef.c:549-584 | reading with the sentinel bit returns the recorded tokens in order |
| `TokenBuffer.FlagOne` | deps/miniz_tdef.c:1059-1098 | shifting a flag into a byte with stale bits above keeps every earlier flag |
| `TokenBuffer.SentinelShift` | deps/miniz_tdef.c:552-556 | the sentinel reaches 1 after exactly eight flags |
| `CodeLengthRle.Packer.Feed` | deps/miniz_tdef.c:360-396 | feeding a length keeps the packed symbols, the pending run and the counts true to the lengths fed |
| `CodeLengthRle.Packer.Close` | deps/miniz_tdef.c:397-404 | after closing, the packed symbols expand to exactly the lengths fed |
| `BlockEmitter.CompressLzCodes` | deps/miniz_tdef.c:544-589 | the bits put are the coding of the recorded tokens and the end code |
| `BlockEmitter.StartStatic` | deps/miniz_tdef.c:424-444 | the block type and the fixed tables, the lengths of section 3.2.6 that FixedLitTable gives as numbers |
| `BlockEmitter.StartDynamic` | deps/miniz_tdef.c:337-422 | the header put describes tables that code every recorded token |
| `BlockEmitter.CompressBlock` | deps/miniz_tdef.c:592-599 | static on request, and then exactly the coding of the recorded tokens with the fixed codes, otherwise dynamic; either, read back anywhere at the right alignment, means the recorded tokens, and takes at most 659937 bits |
| `BlockEmitter.FixedBodySize` | deps/miniz_tdef.c:424-444 | static codes take at most ten bits a literal and 31 a match |
| `StoredBlock.PutStored` | deps/miniz_tdef.c:663-675 | the raw fallback replays the block's own bytes from the ring |
| `BlockFlush.EncodeBlock` | deps/miniz_tdef.c:649-683 | coded or raw, the body turns the coded part of the stream into the next, for a reader that knows no more of it than since the last full flush; it is coded static exactly when that is forced or under 48 bytes are coded; it is raw exactly while the ring still holds the bytes and raw is forced or the coded form is no shorter in whole bytes; and it always stays at least 64 bits clear of the end of the output region |
| `BlockFlush.SpanExact` | deps/miniz_tdef.c:608 | the 32-bit difference of wrapping positions is the true distance |
| `Window.Dictionary.FindMatch` | deps/miniz_tdef.c:829-871 | the match found is sound: no longer than the lookahead, no farther than the dictionary, repeating the stream byte for byte, overlaps included, whatever the hash chains hold; and none of the first probes - 1 candidates on the chain repeats longer. When the chains were cleared, that speaks of the stream: none of the probes - 1 latest earlier positions of the same hash, as far as the history reaches, repeats longer |
| `Window.Dictionary.Probe` | deps/miniz_tdef.c:844-850 | the walk stops exactly at an empty link or one beyond the dictionary; otherwise a hit is exactly that the last two bytes to be beaten agree, at the candidate's true ring distance, stale and 16-bit-aliased links included |
| `Window.Dictionary.Compare` | deps/miniz_tdef.c:859-870 | the compared length is a true repetition |
| `Window.Dictionary.Fill` | deps/miniz_tdef.c:1107-1150 | the mirrored ring holds the last window of the stream with the new bytes, and every position with three bytes links to the latest one before it with the same hash |
| `Window.RingRead` | deps/miniz_tdef.c:1121-1123 | a read up to a match length past the end of the ring sees the mirrored bytes |
| `Parser.LzParser.Step` | deps/miniz_tdef.c:1154-1224 | after any step the tokens expand to exactly the stream up to the lookahead, less one byte exactly while a match is deferred; what the step records and defers follows from what the search at this position finds |
| `Parser.LzParser.Decide` | deps/miniz_tdef.c:1183-1219 | each branch of the lazy, greedy and run-length state machine accounts for the bytes it moves; a deferred match is given up exactly for a longer one, with a literal in its place, and recorded otherwise |
| `Parser.LzParser.Search` | deps/miniz_tdef.c:1154-1182 | what is found is the whole run of one byte, or a match that none of the candidates within the budget exceeds, the budget falling once a match of 32 is in hand; it is passed over exactly when it is three bytes from 8192 or more away, starts in the ring's first slot, or is short and filtered |
| `Parser.LzParser.RunLength` | deps/miniz_tdef.c:1162-1176 | the run-length search reports the whole run and no more |
| `Parser.LzParser.NothingDeferred` | deps/miniz_tdef.c:1100-1243 | no match is deferred once the lookahead is empty |
| `Parser.CopyRepeats` | deps/miniz_tdef.c:1183-1219 | replaying a sound match reproduces the stream |
| `Compressor.EmittedMeans` | deps/miniz_tdef.c:647-716 | block, sync marker, padding and checksum leave a stream that produces, or is complete with, what is coded |
| `Compressor.Deflater.Init` | deps/miniz_tdef.c:1340-1374 | a fresh compressor satisfies the invariant, with whatever memory its ring holds |
| `Compressor.Deflater.FlushBlock` | deps/miniz_tdef.c:603-756 | every byte produced is handed over or pending, in order, and the stream means the coded input; only a bounded callback can refuse |
| `Compressor.Deflater.HandOver` | deps/miniz_tdef.c:730-753 | callback, direct and buffered delivery lose, duplicate and reorder nothing |
| `Compressor.Deflater.FlushOutput` | deps/miniz_tdef.c:1245-1264 | draining moves bytes from pending to delivered, keeping their concatenation, and only a full buffer leaves any pending |
| `Compressor.Deflater.CompressNormal` | deps/miniz_tdef.c:1100-1243 | all input is consumed unless output is pending, the stream grows by what was consumed, every turn that returns early has parsed something, and the loop ends |
| `Compressor.Deflater.Compress` | deps/miniz_tdef.c:1266-1332 | the invariant over every sequence of calls; which calls are bad parameters; delivered bytes grow by the bytes put in the buffer; a call that leaves room leaves nothing pending; a call that is owed output only hands it over, and any other reads its input, parses some, or finishes; DONE means the delivered bytes decode to everything consumed; after a sync or full flush everything consumed is already decodable; after a full flush what is delivered from there on is decodable without what came before, and a sync flush does not move that point |
| `Compressor.Deflater.DoneMeans` | deps/miniz_tdef.c:1245-1264 | finished with nothing pending: the delivered bytes decode to the stream |
| `Compressor.Deflater.SyncMeans` | deps/miniz_tdef.c:703-715 | after a flush marker the stream is byte-aligned and produces the stream so far |
| `Adler.Adler32` | deps/miniz.c:40-66 | the deferred-modulo loop continues any 32-bit value over the bytes as the definition does, and leaves it as it is when there are none |
| `Adler.NoOverflow` | deps/miniz.c:43-64 | no 32-bit sum overflows within a block of 5552 bytes |
| `Adler.RunConcat` | deps/miniz.c:40-66 | chunked calls agree with one call |
| `PrefixTree.AddRoot` | deps/miniz_tinfl.c:371-376 | a new node for a long code's first ten bits finds its lookup slot clear and leaves every slot right |
| `PrefixTree.AddInner` | deps/miniz_tinfl.c:378-388 | a deeper node finds its parent's slot clear and leaves every slot right |
| `PrefixTree.FilledShort` | deps/miniz_tinfl.c:361-370 | filling every slot that ends in a short code disturbs no other symbol or node |
| `PrefixTree.ForkedLong` | deps/miniz_tinfl.c:389-390 | storing a long code's symbol disturbs no other symbol or node |
| `TreeSize.NodesFit` | deps/miniz_tinfl.c:353-391 | the tree never has more nodes than symbols, so its indices stay inside the array |
| `LookupTable.Lookup.Build` | deps/miniz_tinfl.c:327-391 | the build succeeds exactly for lengths that fill the code space or use at most one symbol, and then the tables hold every code |
| `LookupTable.Lookup.Find` | deps/miniz_tinfl.c:160-174 | lookup and tree walk return the one symbol whose code the bits start with, and its length, indexing only inside the arrays; where no code fits, symbol 0 and exactly how far the walk went |
| `LookupTable.Lookup.Enough` | deps/miniz_tinfl.c:112-132 | the bits at hand are called enough only when they decide the code; when they are not, no code and no end of the walk lies within them |
| `BitReader.Reader.GetBits` | deps/miniz_tinfl.c:95-106 | the next n bits of the stream, or a failure exactly when the input has fewer; the 64-bit buffer never overflows |
| `BitReader.Reader.PutBack` | deps/miniz_tinfl.c:605-609 | whole bytes given back leave the position in the stream unchanged |
| `SymbolReader.Decode` | deps/miniz_tinfl.c:143-175 | on any bits: the symbol the RFC reader finds, consuming exactly its code; symbol 0 for what an incomplete code leaves over; starved exactly when the bits end first |
| `SymbolReader.FastSymbol` | deps/miniz_tinfl.c:448-480 | the unchecked fast path agrees with it, whatever the bits |
| `StoredReader.ReadStoredBlock` | deps/miniz_tinfl.c:247-288 | on any bits, from bit buffer and input: the block's bytes, or as many as there is room for, or as there are; which of these is exact, and so is the refusal of a wrong complement |
| `TableReader.Tables.Expand` | deps/miniz_tinfl.c:393-417 | on any bits, the lengths that the run-length symbols spell, starved exactly when the bits end first and refused exactly when they overshoot or begin with a repeat; never past the 457-entry buffer |
| `TableReader.Tables.Prepare` | deps/miniz_tinfl.c:294-421 | on any bits, the tables of a fixed block, whose lengths FixedLitTable gives as numbers, or of a dynamic one; refused exactly when a code is not one the decoder accepts |
| `TableReader.OrderTable` | deps/miniz_tinfl.c:193 | the order of code length codes |
| `BodyReader.LengthTable` | deps/miniz_tinfl.c:189-190 | the length tables are section 3.2.5 of RFC 1951, with two entries of zero for the symbols it reserves |
| `BodyReader.DistTable` | deps/miniz_tinfl.c:191-192 | the distance tables are section 3.2.5 of RFC 1951 |
| `BodyReader.FastStep` | deps/miniz_tinfl.c:438-512 | two symbols from one refill are two steps of the reading; a symbol with no length stops it |
| `BodyReader.ReadMatch` | deps/miniz_tinfl.c:516-533 | on any bits, length and distance with their extra bits, through both codes; the reserved distances are none |
| `BodyReader.Body` | deps/miniz_tinfl.c:422-599 | on any bits, the token loop gives exactly the block's bytes, the bytes before it starved, was refused or ran out of room, and that status; and it always ends |
| `MatchCopy.CopyMatch` | deps/miniz_tinfl.c:541-596 | in a buffer that does not wrap, both copies equal the byte-at-a-time copy, overlaps included, as far as the buffer reaches |
| `MatchCopy.EachRepeats` | deps/miniz_tinfl.c:541-596 | every copied byte repeats the byte a distance before it |
| `Decompressor.Blocks` | deps/miniz_tinfl.c:243-600 | on any bits, the blocks up to the final one, or exactly what stopped them and what was out by then |
| `Decompressor.AlignInput` | deps/miniz_tinfl.c:604-611 | after put-back the bit buffer is empty, as the assertion there claims |
| `Decompressor.Decompress` | deps/miniz_tinfl.c:187-679 | on any bytes, status, output and bytes consumed are exactly those of LaxUnwrap: DONE only for a reading to the end whose checksum, in the wrapper, is there and right; ADLER32_MISMATCH only when it is there and wrong; starved exactly when the input ends first. And for every stream that unwraps: given all of it, and room, DONE with its contents and exactly its bytes consumed; given any front that ends before its last byte, starved with a front of its contents; without room, HAS_MORE_OUTPUT with the buffer full of the front, or starved |
| `CodeCost.PairUp` | deps/miniz_tdef.c:144-163 | in any prefix code two lightest symbols may as well have the longest codes, of equal length: an unpaired longest code can be shortened, and exchanging lengths with a heavier symbol costs nothing |
| `CodeCost.JoinParts` | deps/miniz_tdef.c:149-162 | joining two lightest weights, wherever they wait, saves exactly their sum and keeps the Kraft sum within bounds |
| `HuffmanTree.NoCheaper` | deps/miniz_tdef.c:147-163 | whatever lengths the waiting nodes get, they cost at least what the nodes still to be made weigh |
| `HuffmanTree.TreeCost` | deps/miniz_tdef.c:164-186 | leaves one level below the nodes they were joined into cost exactly what the internal nodes weigh |
| `HuffmanTree.LeafWeight` | deps/miniz_tdef.c:147-163 | a symbol's count times the Fibonacci number of its depth is at most the total count |
| `LengthLimit.DonorBound` | deps/miniz_tdef.c:206-214 | a code of length i is split only while 2^(max-i) is below the number of codes, and everything above it is then at the limit |
| `LengthLimit.SplitMoved` | deps/miniz_tdef.c:206-214 | a pass leaves every length below its donor and the boundary untouched, and no more between boundary and limit than one split code |
| `LimitCost.LimitedCost` | deps/miniz_tdef.c:194-216 | holding cheapest lengths of at most 286 symbols to 15 bits costs at most one more bit per symbol counted |
| `SymbolCounts.UsedFit` | deps/miniz_tdef.c:233-238 | lengths that fit the code space for all symbols fit it for the used ones, in any order |
| `HuffTable.SizesCost` | deps/miniz_tdef.c:229-253 | the lengths handed back to symbols cost at most one bit per symbol counted more than any prefix code |
| `TokenCounts.TallyToken` | deps/miniz_tdef.c:1059-1098 | recording a token bumps exactly the counts of the symbols it needs |
| `TokenCounts.TokensSize` | deps/miniz_tdef.c:544-589 | coding the tokens takes what their symbols cost by the counts, and at most 18 extra bits a match |
| `TokenCounts.DynamicSize` | deps/miniz_tdef.c:337-348 | with lengths made from the counts a block body takes at most ten bits a literal, 31 a match and seven for the end |
| `BlockEmitter.BufferBits` | deps/miniz_tdef.c:1059-1098 | that is at most ten bits per byte of token buffer, flag bytes included |
| `BlockEmitter.HeaderSize` | deps/miniz_tdef.c:337-422 | a dynamic header takes at most 4551 bits |
| `BlockFlush.CodedBlock` | deps/miniz_tdef.c:653-683 | a coded block never overruns the output region, so the re-emission as a static block never happens |
| `Compressor.EmitBlock` | deps/miniz_tdef.c:603-728 | after block and trailer the cursor is before the end of the region: the assertion holds |
| `RingCopy.CopyMatch` | deps/miniz_tinfl.c:535-597 | in a ring either copy, three bytes at a time or masked byte by byte, has copied as much of the match as the writable part takes, what is left completes it, and the ring holds the last of the output |
| `RingCopy.CopyResumed` | deps/miniz_tinfl.c:541-553 | interrupted any number of times and resumed at the start of the ring, it is one match |
| `RingCopy.HoldsNext` | deps/miniz_tinfl.c:551 | the next byte takes the slot of the oldest |
| `InflateRing.Inflater.Inflate` | deps/miniz.c:438-547 | over any sequence of calls, with any output sizes and any decompressor that keeps to its buffers, delivered bytes followed by those pending in the ring are the bytes produced, in order; unless the call was wrong or failed, it answers MZ_STREAM_END exactly when the decompressor has finished and nothing is pending; a call with room left has read its input and leaves nothing pending |
| `InflateRing.Inflater.TakeTurns` | deps/miniz.c:495-544 | the loop ends with any decompressor that asks for input only when it has read all, and for room only when it has filled all, and its answer is the one the state it ends in calls for |
| `InflateRing.Inflater.HandOut` | deps/miniz.c:482-493 | draining the ring moves bytes from pending to delivered, with indices in range |
| `Adler.ContinueChecksum` | deps/miniz.c:40-66 | going on from a checksum gives the checksum of everything |
| `Crc32.TableIs` | deps/miniz.c:99-137 | each of the 256 table entries is its index shifted out bit by bit |
| `Crc32.HighOut` | deps/miniz.c:145 | the bits above a byte shift down eight places without the polynomial |
| `Crc32.TableStep` | deps/miniz.c:145 | one table step is eight bit steps |
| `Crc32.MzCrc32` | deps/miniz.c:95-158 | the unrolled table loop computes the bit-by-bit CRC of RFC 1952, from any starting value |
| `Crc32.CrcChunks` | deps/miniz.c:95-158 | chunked calls agree with one call |
| `Teardown.Connection.Close` | src/uvhttp_connection.c:832-890 | closing counts one callback for each handle that was open; closing again while callbacks are due changes nothing |
| `Teardown.Connection.OnHandleClose` | src/uvhttp_connection.c:811-830 | the counter is lowered and the resources are released on the last of three callbacks, once, whatever the embedder does from its own callback |
| `Teardown.Connection.OnRead` | src/uvhttp_connection.c:224-365 | a failed read, handshake or parse closes; a waiting handshake changes nothing |
| `Teardown.Happen` | src/uvhttp_connection.c:663-890 | any event keeps the counter of callbacks true, never reopens a closing connection, and releases only in a close callback |
| `Teardown.Run` | src/uvhttp_connection.c:663-890 | in every interleaving of events a connection is released exactly when all three close callbacks have come |
| `Teardown.WholeLife` | src/uvhttp_server.c:205-239 | over a connection's whole life, with or without TLS, the server's counter comes back to where it was if and only if the accept had succeeded |
| `FileIndex.OrderTrans` | deps/miniz_zip.c:1413-1429 | the case-insensitive order of names is transitive |
| `FileIndex.RootLast` | deps/miniz_zip.c:553-602 | no entry of a heap comes after its root |
| `FileIndex.SiftDown` | deps/miniz_zip.c:553-602 | sinking an entry restores the heap and only permutes it |
| `FileIndex.SortByName` | deps/miniz_zip.c:553-602 | heap sort leaves every entry once, in order of name |
| `FileIndex.BinarySearch` | deps/miniz_zip.c:1431-1468 | finds an entry of that name, ignoring case, exactly if there is one |
| `FileIndex.IndexAgrees` | deps/miniz_zip.c:1480-1539 | the sorted index and the linear scan find a name or miss it together |
| `FixedCodes.FixedLitTable` | deps/miniz_tdef.c:429-436 | the fixed literal/length code as numbers: 8 bits from 48 for 0 to 143, 9 bits from 400 for 144 to 255, 7 bits from 0 for 256 to 279, 8 bits from 192 for 280 to 287 |
| `FixedCodes.FixedDistTable` | deps/miniz_tdef.c:438 | the fixed distance code as numbers: five bits, the symbol itself |
| `Window.HashRolls` | deps/miniz_tdef.c:1119-1124 | rolling a byte into the hash of three drops the oldest: it is the hash of the last three |
| `Window.ChainVisits` | deps/miniz_tdef.c:837-858 | walking the 16-bit links from a position visits the latest earlier positions of the same hash, in order, as far as the history reaches |
| `Window.Dictionary.NoneEarlier` | deps/miniz_tdef.c:837-858 | so what no candidate on the chain exceeds, no such position in the stream exceeds |
| `BlockFlush.CoversEarlier` | deps/miniz_tdef.c:1323-1328 | tokens that reach back no further than a point mean the same to a reader that knows more |
| `BlockFlush.ChosenSize` | deps/miniz_tdef.c:656-675 | unless raw blocks are forced a block is at most 56 bits longer than its coded form |
| `Compressor.EmittedSince` | deps/miniz_tdef.c:647-716 | block and trailer extend what the stream since the last full flush produces by itself |
| `Compressor.Deflater.Close` | deps/miniz_tdef.c:1318-1329 | the flush writes the last block and its trailer; a full flush clears the history, and from there on the stream stands by itself |
| `Compressor.Deflater.ForgetHistory` | deps/miniz_tdef.c:1323-1328 | with the dictionary empty and the chains clear, no later match reaches back over the flush |
| `RoundTrip.CompressRestart` | deps/miniz_tdef.c:1323-1328 | what is sent after a full flush decodes by itself to what was put in after it, and with what was sent before to everything |
| `RoundTrip.RoundTripRestart` | deps/miniz_tdef.c:1323-1328 | so inflating from the flush point on gives back what was put in after it |
| `RoundTrip.ExpandCut` | deps/miniz_tinfl.c:187-679 | a finished stream cut before its end is never taken for all of it |
| `Truncation.SymFollows` | deps/miniz_tinfl.c:108-175 | where the format reads a symbol, so does the decompressor; given only the front of its code it runs short |
| `Truncation.BodyFollows` | deps/miniz_tinfl.c:422-599 | the same of a block body, whatever the room: the same bytes, short if it goes on past the end, or as much as there is room for |
| `Truncation.TablesFollow` | deps/miniz_tinfl.c:312-421 | the same of a dynamic header |
| `Truncation.StoredFollows` | deps/miniz_tinfl.c:247-288 | the same of a stored block |
| `Truncation.InflateFollows` | deps/miniz_tinfl.c:243-600 | the same of all blocks |
| `LaxWrapper.UnwrapFollows` | deps/miniz_tinfl.c:229-679 | the same of a whole stream, bare or wrapped |
| `Completeness.Covered` | deps/miniz_tinfl.c:342-352 | every bit string starts with some code of a set that fills the code space |
| `Completeness.ReadsExactly` | deps/miniz_tinfl.c:349-352 | an accepted code reads every bit string as the format does exactly when it fills the code space |
| `Completeness.BodyExactly` | deps/miniz_tinfl.c:422-599 | with complete codes, a block body that is read through is one of the format exactly when it meets no reserved length symbol, and then both give the same bytes |
| `Completeness.InflateExactly` | deps/miniz_tinfl.c:243-600 | the same of all blocks of a stream |
| `Completeness.ReservedTaken` | deps/miniz_tinfl.c:189-190 | a concrete block with the reserved symbol 286, which the decompressor takes and the format does not |
| `LaxWrapper.UnwrapExactly` | deps/miniz_tinfl.c:229-679 | with complete codes, an input taken for a whole stream is one exactly when it has no reserved length symbol |
| `Decompressor.DoneExactly` | deps/miniz_tinfl.c:187-679 | what DONE says of such an input |
| `TreeWalk.StepMeans` | deps/miniz_tinfl.c:160-174 | a step down the tree ends at a symbol whose code the bits start with, at a node that a longer code passes, or one bit past the last such node |
| `Crc32.CheckValue` | deps/miniz.c:95-158 | the checksum of the nine digits is 0xCBF43926, the check value catalogued for this CRC |
| `Crc32.Residue` | deps/miniz.c:95-158 | any data followed by its own checksum has one and the same checksum |
| `Adler.BasePrime` | deps/miniz.c:43-64 | 65521 is prime |
| `Adler.NoneLarger` | deps/miniz.c:43-64 | and no number from there to 65536 is |
| `Adler.CheckValue` | deps/miniz.c:40-66 | the checksum of a known text is the one published for it |

## Left out

- Decompressor.Decompress: a literal code that gives no length to the bits at hand is refused by the fast path and repeated by the slow one until there is no room; the contract allows either answer then. How many bytes count as consumed is stated for a stream read to its end and for one that starves, not for one refused or cut for room.
- Compressor.Deflater.FlushBlock: the finished flag is set together with the stream's last block, where the C code sets it after the block's bytes were handed over; they differ only after a refused callback, when every later call is a bad parameter. The block counter does not wrap at 2^32.
- RoundTrip.CompressCalls: calls that offer no input or no room are not part of a schedule; they change nothing but what is owed, and `mz_deflate` refuses them.
- HuffTable.Table.Optimize: the cost bound is stated for the limit of 15 bits; for the code length code, limited to 7, every length is at most 7 and that is all the header's size needs.
- Resuming the decompressor at a suspension point: the model is a single call on a flat buffer, where running out of input is one outcome, whichever of the two status codes the flags choose. Of the wrapping output buffer the interrupted match copy is modelled, and the ring that `mz_inflate` drains around any decompressor.
- Aliasing of the caller's input and output buffers: the input is a value.
- NULL arguments to tdefl_compress, other than the output buffer that must be absent exactly when there is a callback, and to the checksums.
- The uncompiled unaligned variants and the PNG writer.
- Allocation and its failure, and callbacks other than one that accepts a bounded number of bytes.
- Of the HTTP server only the accept callback's counting and the teardown of a connection are modelled; parsing, routing, WebSocket frames and the TLS library are outcomes that the events carry. Of the archive code only the file index.
