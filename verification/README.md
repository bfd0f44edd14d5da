# Entropy coding, scans and their neighbours: a verified model

This Dafny project models the JPEG entropy codec of `lib/jpegli` in both directions and
the state machines around it, and proves what they promise. It also covers four cores
beside it: the encoder's row pipeline, the colour quantizer, the tracking memory manager
and the recursive Gaussian. `dafny verify dfyconfig.toml` checks all of it.

## What is modelled

*Bits.* `Bits`, `ZeroByte`, `ByteStuffing` hold words, bit strings and stuffing
(ITU-T T.81, section F.1.2.3). `BitWriter` is the 64-bit accumulator in front of a byte
buffer and a destination that may refuse; `ByteSource` and `BitReader` are the stream
behind a raw position and the lookahead window over it.

*Codes.* `HuffmanCode` is the canonical code of section C.2, `HuffmanTables` both ends'
tables for it, `SymbolReader` the two-level lookup.

*Blocks.* `BlockDecoder` decodes and refines in place (sections F.2.2, G.1.2, G.1.3);
`ZigZagOrder` is the scan order as a walk. `BlockCoder` and `CodeWriter` are the simple
coder, `FastCoder` the branch-free one for any number of lanes dividing 64. `RoundTrip`, `StreamEncoder` and `EndToEnd` close the circle
from coefficients through a padded, stuffed segment and back into the decoder's storage;
`ScanItems` is the order of the blocks, `WholeScan` the circle for a whole scan.

*Progressive scans.* `PointTransform` is what is left of a coefficient at a bit position,
`ProgressiveCoder` the tokens of first passes and refinements (sections G.1.2.2, G.1.2.3).
`FirstPass` and `Refinement` prove that the decoder makes of them the coefficients as far
as they were sent, `ProgressiveFile` that the scans of a script deliver the image.
`ProgressiveTokens`, `RefinementTokens` (over the parts between restarts, `ScanParts`) and
`RefinementWriter` are the encoder's loops, proved to yield and write those tokens;
`ProgressiveRoundTrip` joins the two ends.

*Scans.* `McuDecoder`, `ScanSteps`, `ScanDecoder` are `ProcessScan` with its snapshots and
restarts, first as methods over arrays, then as a state machine that the methods are proved
equal to. `StreamPrefix`, `McuPrefix`, `Suspension`, `Buffering`, `EarlyMarker` are about
input that arrives in pieces, `SharedSink` and `OldSnapshot` two inputs on which the decoder
fails. `ScanGeometry` is the grid of MCUs, `ImageStorage` the blocks behind it, `ScanScript`,
`DefaultScript` and `DefaultScans` the scripts of both sides, `Precision` and `FilePrecision` what the scans
of a file leave in the coefficients.

*Around it.* `RowPipeline` is the ring of input rows with its context, `MemoryDestination`
the doubling buffer, `MixedRadix`, `InverseColorMap`, `OnePassPalette` and `ColorQueue` the
quantizer, `TrackingMemory` and `TrackingStatistics` the two-lock accounting, `Gaussian` the filter over the reals.

Code that updates state is a class or a method over arrays, proved equal to a function or a
step of a state machine; the promises are lemmas about those.

## Where code and comments part

- `decode_scan.cc:496-500` says that only DC scans can be interleaved. `ProcessSOS` does not
  check it. In an interleaved refinement scan with AC coefficients and blocks beyond the edge
  the sink, which nothing restores, decides how many bits are read, so that the answer depends
  on how the input is cut (`PiecesDisagree`). The results about suspension carry the condition
  `Neutral`: `Ah == 0`, or `Se == 0`, or no block beyond the edge. It is exact for what an MCU
  reads (`SinkIrrelevantIff`), and all scans of one component and of all encoder scripts
  meet it (`OneComponentNeutral`, `ScriptNeutral`).
- The snapshot of `decode_scan.cc:473-475` is taken only near the end of the buffer, but the
  branch for an early marker (`:533-539`) always restores it. `MarkerRollback` says exactly
  when that goes back to the state before the MCU, `StaleSnapshot` gives two scans of which
  the second erases what the first decoded.
- `NumBits` counts right exactly for magnitudes below 4096 (`NumBitsIff`); the fast coder is
  proved for blocks in that range, which 8-bit samples never leave.
- Without a cap on the total, an overflowing total in `Alloc` is set to zero, so that the
  refusal is not lasting: it lasts exactly if there is a cap (`TotalLimitIffLasting`).

## Model

| member | source | states |
|---|---|---|
| ZeroByte.HasZeroByteIff | lib/jpegli/bit_writer.h:36-40 | the word trick is nonzero exactly if one of the eight bytes is zero |
| BitWriter.HasFFByteIff | lib/jpegli/bit_writer.h:58 | applied to the complement it finds exactly the words that hold a byte 0xFF |
| ByteStuffing.StuffedHasNoMarker | lib/jpegli/bit_writer.h:48-51 | in stuffed data every 0xFF is followed by 0x00, for all byte sequences |
| ByteStuffing.PackAllBits | lib/jpegli/bit_writer.h:60-69 | packing the bits of a byte sequence gives the bytes back |
| ByteStuffing.AllBitsPack | lib/jpegli/bit_writer.h:60-69 | the bits of the packed bytes of a bit string are the bit string |
| BitWriter.JpegBitWriter.EmitByte | lib/jpegli/bit_writer.h:48-51 | appends the byte and, after 0xFF, a zero; at most two bytes of the buffer |
| BitWriter.JpegBitWriter.DischargeBitBuffer | lib/jpegli/bit_writer.h:53-74 | the store of a whole word and the byte-wise path both append the same stuffed bytes, whatever lay above the valid bits |
| BitWriter.JpegBitWriter.WriteBits | lib/jpegli/bit_writer.h:76-95 | the bits written so far grow by exactly the field; unstuffed emitted bytes and pending bits together are always all fields written; at most two bytes of output for eight bits; a zero-width code makes the writer unhealthy |
| BitWriter.JpegBitWriter.JumpToByteBoundary | lib/jpegli/bit_writer.cc:51-65 | what has been emitted is the earlier output followed by the written bits, padded with ones to a byte and stuffed |
| BitWriter.JpegBitWriter.EmptyBitWriterBuffer | lib/jpegli/bit_writer.cc:33-49 | for any room granted and any refusals, delivered bytes and the buffered rest are what was emitted, in order; after success the buffer is empty |
| ByteSource.GiveBack | lib/jpegli/decode_scan.cc:88-96 | stepping back over one stream byte, seeing only raw bytes and the marker position, undoes the step forward, through escapes, the end of the data and a marker |
| ByteSource.ResumeContinues | lib/jpegli/decode_scan.cc:83-106 | a reader started at the returned byte and bit continues the same bit string for ever |
| ByteSource.ResumeIff | lib/jpegli/decode_scan.cc:98-104 | resumption is possible exactly if every byte used up was complete and a byte that was begun is one of the data |
| BitReader.BitReaderState.GetNextByte | lib/jpegli/decode_scan.cc:44-61 | the bytes returned are those of the unstuffed stream, zeroes past a marker or the end |
| BitReader.BitReaderState.FillBitWindow | lib/jpegli/decode_scan.cc:63-71 | the window holds the next bits of the stream and at least 17 of them; the position does not move |
| BitReader.BitReaderState.ReadBits | lib/jpegli/decode_scan.cc:73-78 | returns the value of the next bits of the stream and advances by their number |
| BitReader.BitReaderState.FinishStream | lib/jpegli/decode_scan.cc:83-106 | the place and the verdict depend only on the bits that were read, not on how far the window ran ahead |
| HuffmanCode.FindPrefix | lib/jpegli/entropy_coding.cc:804-835 | in a canonical code, a 16-bit window belongs to a code word exactly if it begins with it |
| HuffmanTables.NextTableBitSize | lib/jpegli/huffman.cc:26-35 | the second-level table chosen has room for all codes that share its root entry, up to its size |
| HuffmanTables.BuildJpegHuffmanTable | lib/jpegli/huffman.cc:37-110 | the two-level table gives every 16-bit window the length and symbol of its canonical code word, and the invalid symbol if it has none; for any code of at most 257 words nothing is written outside the 1024 entries |
| HuffmanTables.NextRoom | lib/jpegli/huffman.cc:84-108 | when a second-level table is full it holds as many code words as its smallest size and the next code is no shorter than its last: the account that bounds the whole table |
| HuffmanTables.BuildHuffmanLookupTable | lib/jpegli/decode.cc:170-211 | accepts a segment exactly if its symbols differ and its lengths leave room for one more code word, and then the table of 1024 entries serves it |
| HuffmanTables.BuildHuffmanCodeTable | lib/jpegli/entropy_coding.cc:804-835 | depth and code of every symbol are its canonical code word shifted by its extra bits; other symbols are untouched |
| SymbolReader.ReadSymbol | lib/jpegli/decode_scan.cc:118-132 | reading through the two levels gives the symbol of the next 16 bits and uses up the bits of its code word |
| ZigZagOrder.ZigZagWalk | lib/jpegli/common_internal.h:63-72 | from each place of the table to the next is a step of the walk: along the antidiagonal, upwards on even and downwards on odd ones, and at the edge on to the neighbouring place of the next antidiagonal |
| ZigZagOrder.AlongDiagonals | lib/jpegli/common_internal.h:63-72 | row plus column stays or grows by one from each place to the next; within an antidiagonal the row falls by one if it is even and rises by one if odd |
| Coefficients.NaturalInverse | lib/jpegli/common_internal.h:63-86 | the two scan orders are inverse permutations of the 64 places |
| BlockDecoder.DecodeDCTBlock | lib/jpegli/decode_scan.cc:176-243 | decoding in place equals the function of the bit stream that the later results are about, and touches no other block |
| BlockDecoder.RefineDCTBlock | lib/jpegli/decode_scan.cc:245-343 | the same for refinement passes, with runs, end-of-band runs and correction bits |
| BlockCoder.ExtendInverts | lib/jpegli/decode_scan.cc:164-173 | the decoder's extension of the extra bits gives back every nonzero coefficient |
| BlockCoder.NumNonZero8x8ExceptDC | lib/jpegli/entropy_coding-inl.h:129-160 | counts the nonzero coefficients behind the first |
| BlockCoder.ComputeTokensForBlock | lib/jpegli/entropy_coding-inl.h:162-216 | the token loop with its early end yields the token sequence of the block: runs above 15, end of block, category and extra bits |
| CodeWriter.WriteTokens | lib/jpegli/bitstream.cc:335-352 | appends exactly the fields of the tokens, and reports a symbol without a code; emptied once in every cycle, the buffer never overflows, for any number of tokens and even if every byte is stuffed |
| FastCoder.NumBitsIff | lib/jpegli/entropy_coding-inl.h:50-67 | the table-free bit count is the bit length exactly for values below 4096 |
| FastCoder.ZigZagShuffle | lib/jpegli/encode_streaming.cc:40-108 | permutes a block in place into scan order: place k gets the coefficient at the row and column that the zig-zag walk reaches after k steps |
| FastCoder.CompactBlock | lib/jpegli/entropy_coding-inl.h:78-107 | for every lane count dividing 64, compaction in place keeps exactly the DC and nonzero coefficients with their places, and reads none that was overwritten |
| FastCoder.ComputeSymbols | lib/jpegli/entropy_coding-inl.h:109-127 | the symbols and extra bits of the compacted coefficients are those of the tokens |
| FastCoder.WriteBlock | lib/jpegli/bitstream.cc:281-309 | emits the tokens of the block, with the zero runs and the end of block the tokens have |
| FastCoder.EncodeBlockFast | lib/jpegli/encode_streaming.cc:203-215 | the branch-free coder writes exactly the bits of the block's token sequence |
| FastCoder.EncodeBlockSimple | lib/jpegli/encode_streaming.cc:203-208 | the simple coder writes the same bits: the fast one refines it |
| FastCoder.BlockWidth | lib/jpegli/bit_writer.cc:22 | a block takes at most 64 symbols of 28 bits |
| RoundTrip.BuildBothTables | lib/jpegli/decode.cc:170-211 | the encoder's and the decoder's table built from one segment agree, exactly if the decoder accepts the segment |
| RoundTrip.SegmentCarries | lib/jpegli/bit_writer.cc:51-65 | a padded and stuffed segment, whatever surrounds it, is read as its bit string |
| RoundTrip.SymbolDecoded | lib/jpegli/decode_scan.cc:118-132 | where a code word stands in the stream the lookup finds its symbol |
| RoundTrip.BlockDecoded | lib/jpegli/decode_scan.cc:176-243 | decoding the code of a block gives the block and the new prediction, and uses up exactly its bits |
| RoundTrip.ScanRoundTrip | lib/jpegli/decode_scan.cc:176-243 | for all blocks with differences and coefficients below 2048 and all agreed tables: tokens, code words, padding and stuffing are decoded to the same blocks and DC chain, and the end of the segment is complete |
| PointTransform.OneMoreBit | lib/jpegli/decode_scan.cc:301-311 | the bit of the magnitude, added in the direction of the sign, takes a coefficient from one bit position to the next |
| PointTransform.CorrectionAdds | lib/jpegli/decode_scan.cc:293-312 | the decoder's correction of a coefficient that is there makes it the true coefficient cut off one bit lower |
| PointTransform.OneMoreDcBit | lib/jpegli/decode_scan.cc:250-256 | the same for the DC coefficient, with the bits of its two's complement and rounding down |
| Refinement.SignKept | lib/jpegli/decode_scan.cc:274-280 | a coefficient that a refinement creates has the sign of the true one: the decoder's sign bit is 1 exactly for a positive value |
| Refinement.BlockRefined | lib/jpegli/decode_scan.cc:245-343 | refining a block from the code of its refinement (runs over zeroes, sign bit 1 exactly if positive, correction bit al of the magnitude, DC bit) is accepted and leaves every coefficient x of the band as sign(x) * (|x| / 2^al) * 2^al, for all blocks and all bit positions, and no other changed |
| Refinement.ScanRefined | lib/jpegli/decode_scan.cc:245-343 | the same for all blocks of a scan and every division of the ends of bands into runs, end-of-band runs over many blocks included |
| FirstPass.DcStored | lib/jpegli/decode_scan.cc:176-196 | a first DC pass at any bit position stores the old prediction plus the coded difference, times 2^al, which is the coefficient rounded down to a multiple of 2^al |
| FirstPass.BlockFirst | lib/jpegli/decode_scan.cc:176-243 | a first pass over DC and AC coefficients at any bit position, decoded from its code, stores the DC coefficient rounded down and every AC coefficient of the band cut off towards zero; predictions and run follow |
| FirstPass.ScanFirst | lib/jpegli/decode_scan.cc:176-243 | the same for all blocks of an AC scan, with end-of-band runs |
| ProgressiveFile.ScriptHolds | lib/jpegli/encode.cc:163-244 | after any number of scans of an accepted script, each decoded from its own code, every coefficient is the true one as far as it was sent |
| ProgressiveFile.ScriptDelivers | lib/jpegli/encode.cc:163-244 | after all its scans every coefficient of every block is exactly the one that was coded, sequential or progressive, for all scripts the encoder accepts |
| ProgressiveTokens.TokenizeProgressiveDC | lib/jpegli/entropy_coding.cc:78-93 | the token is that of the difference of what is left of the DC coefficients |
| ProgressiveTokens.TokenizeACProgressiveScan | lib/jpegli/entropy_coding.cc:95-200 | the loops with their deferred end-of-band runs yield, between any two restarts, exactly the tokens of a first pass over the blocks between them; restarts divide the blocks as the interval says |
| RefinementTokens.ScanTokens.TokenizeBand | lib/jpegli/entropy_coding.cc:239-314 | one block of the refinement: tokens for sixteen zeroes are written ahead and taken back if no new coefficient follows; what stays are the tokens of the refinement but for the bands that wait, and the block takes at most its allowance of room |
| RefinementTokens.ScanTokens.EndBand | lib/jpegli/entropy_coding.cc:281-309 | the token for the end of the bands is patched in place, or a second one begun when it would have more than 255 correction bits; buffers and counts stay those of the tokens they stand for |
| RefinementTokens.TokenizeACRefinementScan | lib/jpegli/entropy_coding.cc:202-318 | symbols, correction bits and runs left in the buffers are those of the refinement of the blocks between the restarts; with one token for each new coefficient and 1 + (Se - Ss) / 16 for each block, and one run for every two blocks, no buffer overflows |
| RefinementTokens.NextEnd | lib/jpegli/entropy_coding.cc:294-303 | stepping the symbol at powers of two and counting the bits up gives the token for one band more |
| RefinementWriter.WriteACRefinementTokens | lib/jpegli/bitstream.cc:364-407 | from the symbols, correction bits and runs that were kept, the loop writes the bits of the tokens they stand for, in order, and reports a symbol without a code |
| ProgressiveRoundTrip.FirstPartDecoded | lib/jpegli/entropy_coding.cc:95-200 | what the first-pass loops yield between two restarts, written with agreed tables, is decoded to the coefficients cut off at the bit position |
| ProgressiveRoundTrip.RefinedPartDecoded | lib/jpegli/entropy_coding.cc:202-318 | what the refinement loops leave between two restarts can be taken apart by the writer, and is decoded to one more bit of every coefficient |
| StreamEncoder.WriteMcu | lib/jpegli/encode_streaming.cc:163-219 | the loops over components, block rows and blocks append the bits of the MCU's blocks in the order in which the decoder visits them, with the two codes of a flat block for each one beyond the edge, and keep the predictions |
| StreamEncoder.WriteiMCURow | lib/jpegli/encode_streaming.cc:112-225 | a row of interleaved MCUs appends exactly the bits of its blocks and leaves the predictions behind them |
| ScanItems.RowsOfScan | lib/jpegli/encode_streaming.cc:163-219 | a scan is its rows: the blocks of the rows one after the other are the blocks of the scan |
| StreamEncoder.FinishImage | lib/jpegli/encode.cc:621-633 | at most two rows of interleaved MCUs and the final flush fit in the buffer that the bit writer allocates for the image, even if every byte is stuffed, and emit the segment of their bits |
| StreamEncoder.EmittedDecodes | lib/jpegli/encode_streaming.cc:112-225 | what the streaming encoder emitted for a scan is decoded to the same blocks |
| EndToEnd.SlotsDecoded | lib/jpegli/decode_scan.cc:480-518 | the blocks coded for an MCU are decoded into their places in the storage, sink blocks included in the count of bits, and the predictions follow |
| EndToEnd.McuDecoded | lib/jpegli/decode_scan.cc:468-542 | standing in the emitted segment with two bytes behind the bits of the next MCU, the decoder accepts it, stores its blocks and stands behind its bits |
| EndToEnd.SegmentAhead | lib/jpegli/decode_scan.cc:525-530 | in what the encoder emitted this is so for every MCU when its turn comes |
| WholeScan.WithoutRestarts | lib/jpegli/encode_streaming.cc:112-225 | without restarts the emission of a scan is the one segment that the streaming encoder emits |
| WholeScan.AllTurns | lib/jpegli/decode_scan.cc:549-567 | standing at the beginning of a segment, the decoder accepts every MCU of the interval across the ends of rows, and either completes the scan or stands behind the segment with a restart due |
| WholeScan.PassRestart | lib/jpegli/decode_scan.cc:444-466 | the marker behind the segment is found and passed, and the scan goes on behind it with predictions and run reset and the next marker expected |
| WholeScan.ScanStored | lib/jpegli/decode_scan.cc:437-568 | from image to image: over storage without coefficients the decoder, run on the emission of a sequential scan of any image with any restart interval (segments with their predictions reset, and the markers between them), completes the scan, every block of the storage is that of the image, and the decoder stands behind the last segment |
| WholeScan.PiecesStored | lib/jpegli/decode.cc:301-382 | the same if the input arrives in pieces, however it is cut |
| McuDecoder.RestoreUndoes | lib/jpegli/decode_scan.cc:370-393 | restoring the saved blocks undoes any change inside the blocks of the MCU |
| McuDecoder.DecodeFrame | lib/jpegli/decode_scan.cc:480-518 | decoding an MCU changes no coefficient outside its blocks |
| ScanDecoder.Decoder.DecodeMcu | lib/jpegli/decode_scan.cc:480-518 | the nested loops decode the blocks of all components in order, each in its place or into the sink |
| ScanDecoder.Decoder.SaveMCUCodingState | lib/jpegli/decode_scan.cc:345-368 | records predictions, run and the blocks inside the components, and leaves the rest of the buffer |
| ScanDecoder.Decoder.RestoreMCUCodingState | lib/jpegli/decode_scan.cc:370-393 | puts back what the snapshot holds |
| ScanDecoder.Decoder.FinishScan | lib/jpegli/decode_scan.cc:395-418 | fails exactly inside an end-of-band run; else resets the predictions and moves to the next whole byte |
| ScanDecoder.Decoder.ProcessScan | lib/jpegli/decode_scan.cc:437-568 | a call is a run of the state machine: accepted MCUs until a row ends, input is missing, a restart is due, or a marker or an error is met; the state stays ready |
| ScanSteps.RowEnd | lib/jpegli/decode_scan.cc:549-567 | a completed row leaves the next row to decode; a completed scan has decoded every MCU and reset the run |
| ScanSteps.RunReady | lib/jpegli/decode_scan.cc:437-568 | waiting for input and completing a row keep the state valid |
| StreamPrefix.PrefixAgrees | lib/jpegli/decode_scan.cc:522-530 | where two bytes are left behind a bit, all bits before it are final |
| StreamPrefix.ByteOrZero | lib/jpegli/decode_scan.cc:44-61 | every byte read from a prefix of the data is the byte of the whole data or zero |
| StreamPrefix.ServesStable | lib/jpegli/decode.cc:170-211 | in every table the decoder builds a symbol depends on its code word only, and the windows without a symbol are the highest ones |
| McuPrefix.SlotsPrefix | lib/jpegli/decode_scan.cc:480-518 | an MCU whose bits are known is decoded the same from every extension if it is well formed, and rejected by every extension if not |
| McuPrefix.SlotsPos | lib/jpegli/decode_scan.cc:22-26 | an MCU takes a bounded number of bits for each block |
| McuPrefix.SlotsIgnoreSink | lib/jpegli/decode_scan.cc:496-503 | in first passes, in DC scans and in every MCU without a block beyond the edge the content of the sink has no influence |
| McuPrefix.SinkIrrelevantIff | lib/jpegli/decode_scan.cc:496-503 | and in no others: the condition holds exactly if no stream, state and content of the sink exist for which it has one |
| Suspension.McuFits | lib/jpegli/decode_scan.cc:473-475 | with 6048 bytes left an MCU never runs out of input, so the snapshot was taken whenever more input is asked for |
| Suspension.NeedMoreKeeps | lib/jpegli/decode_scan.cc:522-530 | asking for more input leaves coefficients, predictions, run and position as before the MCU |
| Suspension.McuExtends | lib/jpegli/decode_scan.cc:522-546 | an MCU accepted on a prefix is accepted with the same result on every extension; a marker found stays; an error is never accepted later |
| Suspension.RestartExtends | lib/jpegli/decode_scan.cc:444-466 | the restart branch is idempotent: continuing after a wait finds the same marker |
| Suspension.RunExtends | lib/jpegli/decode_scan.cc:437-568 | where the sink has no influence, whatever a call answers on a prefix it answers on every extension; after a wait, going on is as good as starting with the extension |
| Suspension.PiecesAgree | lib/jpegli/decode.cc:301-382 | for every scan in which the sink has no influence (`Neutral`: first passes, DC scans, and all scans without blocks beyond the edge) and every way of cutting the input into growing pieces, the scan with its rows and expected restart markers gives what the whole input gives; an error is reported only where the whole input accepts nothing either |
| SharedSink.PiecesDisagree | lib/jpegli/decode_scan.cc:496-503 | a refinement scan of two interleaved components, not `Neutral`, and two pieces of input: in pieces the scan ends in an error, the whole input is accepted |
| SharedSink.InOrder | lib/jpegli/decode_marker.cc:213-276 | the scan of this example follows a first pass, both headers are accepted, its grid is the one computed from a frame header, and its table the one built from a segment |
| Buffering.CutScan | lib/jpegli/decode.cc:317-338 | dropping input that was used up before a scan goes on changes nothing but the position |
| Buffering.BufferedAgrees | lib/jpegli/decode.cc:301-382 | decoding from a buffer whose used-up part is dropped and to which chunks are appended gives what the whole input gives, for every division into chunks, empty buffers included |
| EarlyMarker.MarkerRollback | lib/jpegli/decode_scan.cc:533-539 | an MCU that runs into a marker is rolled back exactly if fewer than 6048 bytes were left, or the old snapshot holds the same |
| OldSnapshot.StaleSnapshot | lib/jpegli/decode_scan.cc:533-539 | two scans, from an image without coefficients, after which it is not: the first decodes a DC value, the second, a first pass over AC coefficients, stops at a marker and the DC value is gone |
| OldSnapshot.ScansInOrder | lib/jpegli/decode_marker.cc:213-276 | the two scans are accepted one after the other, with the grids of a frame header and a table built from a segment |
| EarlyMarker.CutRun | lib/jpegli/decode.cc:317-338 | dropping input that was used up changes nothing but the position |
| ScanGeometry.SingleMcusAreBlocks | lib/jpegli/decode.cc:267-273 | for all sizes and integral ratios the MCUs of a scan of one component are its blocks |
| ScanGeometry.IMcusHoldBlocks | lib/jpegli/decode_marker.cc:145-162 | the interleaved MCUs are the least number that holds the blocks of each component |
| ScanGeometry.PreparedGrid | lib/jpegli/decode.cc:267-287 | every MCU starts inside every component, and the last MCU row lies in the last row of interleaved MCUs |
| ScanGeometry.PreparedCovers | lib/jpegli/decode.cc:267-287 | the grid covers every component |
| ScanGeometry.EveryBlockOnce | lib/jpegli/decode_scan.cc:480-504 | every block is visited by exactly one place of exactly one MCU |
| ScanGeometry.VisitedAddress | lib/jpegli/decode_scan.cc:422-435 | a visited block is stored in its own absolute row, or in the sink exactly if it is beyond the edge |
| ScanGeometry.SlotsDisjoint | lib/jpegli/decode_scan.cc:480-504 | the blocks of an MCU do not overlap |
| ScanGeometry.NoneBeyondIff | lib/jpegli/decode_scan.cc:496-503 | no MCU has a block beyond the edge exactly if every component fills its part of the grid |
| ScanGeometry.OneComponentNeutral | lib/jpegli/decode.cc:267-273 | every scan of one component, refinements of AC coefficients included, is `Neutral`, for all sizes and ratios |
| ScanGeometry.ScriptNeutral | lib/jpegli/encode.cc:163-244 | every scan of every script that the encoder accepts is `Neutral` |
| ScanScript.ValidateScanScript | lib/jpegli/encode.cc:163-244 | accepts exactly the scripts in which every scan is well formed, continues every coefficient where earlier scans left it, sends DC first, and all end at bit 0 |
| ScanScript.ProcessSOS | lib/jpegli/decode_marker.cc:223-279 | replaces band and bits in sequential frames, after the check on Ah and Al, accepts exactly the scans that send no bit again and none after a lower one, and records what they send |
| ScanScript.ScriptDecodes | lib/jpegli/decode_marker.cc:213-276 | the decoder accepts every scan of an accepted script, in order, with the encoder's masks, and replaces nothing in it |
| ScanScript.ScriptComplete | lib/jpegli/encode.cc:237-243 | at the end of an accepted script every mask of the decoder is full |
| ScanScript.EachBitOnce | lib/jpegli/encode.cc:211-224 | an accepted script sends every bit of every coefficient exactly once |
| ScanScript.HighBitsFirst | lib/jpegli/encode.cc:211-224 | of two bits of a coefficient the higher one is sent by the earlier scan |
| DefaultScript.SetDefaultScanScript | lib/jpegli/encode.cc:116-161 | the counted size is the number of scans filled in, and they are those of the modes, group by group |
| DefaultScript.DefaultScriptValid | lib/jpegli/encode.cc:116-161 | the default script is valid for every level and component count, except exactly a sequential image with more than ten blocks in an MCU |
| DefaultScans.WhichScan | lib/jpegli/encode.cc:116-161 | in the default script of every level, number of components and interleaving of DC, the scan with the stated number exists, has the component and the coefficient in its band, and sends the bit: level 0 all at once, level 1 DC, then AC down to bit 1, then bit 0, levels from 2 on DC, the first two AC coefficients, the others down to bit 2, then bit 1, then bit 0 |
| Precision.FirstPassKeeps | lib/jpegli/decode_scan.cc:176-243 | a first pass leaves the coefficients of its band multiples of the announced bit, within range, and no others changed in precision |
| Precision.RefineKeeps | lib/jpegli/decode_scan.cc:245-343 | a refinement pass leaves the coefficients of its band with one more bit of precision |
| Precision.RefineRefines | lib/jpegli/decode_scan.cc:245-343 | a refinement creates only values of one step and moves others by at most one step away from zero; outside the band nothing changes; inside a run nothing is created |
| Precision.RefinedKeeps | lib/jpegli/decode_scan.cc:293-312 | a refined coefficient keeps its sign and all higher bits of its magnitude |
| Precision.ScanKeeps | lib/jpegli/decode_marker.cc:261-276 | a pass over a block with the recorded precision leaves the precision recorded after the scan, and so does no pass |
| FilePrecision.EveryMet | lib/jpegli/decode_scan.cc:480-518 | in a well-formed MCU every block is decoded once, from what it held before the MCU |
| FilePrecision.AttemptKeeps | lib/jpegli/decode_scan.cc:437-568 | one attempt of the decoder, whatever it answers, leaves the new precision in the blocks that were passed and the old one in the others, except where a stale snapshot is put back |
| FilePrecision.SessionMidway | lib/jpegli/decode.cc:301-382 | so it is at every call of a scan, for any division of its input, restarts and resynchronisation included |
| FilePrecision.PiecesCalls | lib/jpegli/decode.cc:301-382 | a scan fed with growing pieces is such a sequence of calls |
| FilePrecision.FilePrecise | lib/jpegli/decode_marker.cc:261-276 | after every scan of every file whose scans the decoder accepts, every coefficient of every block in the storage is a multiple of the lowest recorded bit, within range, and zero if none is recorded |
| Precision.EndOfBandExact | lib/jpegli/decode_scan.cc:228-242 | in a first pass an end-of-band run covers exactly as many blocks as it says, this one included |
| Precision.EndOfRefinementExact | lib/jpegli/decode_scan.cc:281-289 | in a refinement pass it ends the creation of coefficients for exactly as many blocks |
| RowPipeline.SlotDistinct | lib/jpegli/common_internal.h:106-108 | rows less than a ring apart never share a place, row -1 included |
| RowPipeline.Input.ReadInputRow | lib/jpegli/encode.cc:559-600 | stores each scanline once, and behind the last one the copies that complete the last row of interleaved MCUs; every sample stored, border included, is that of the nearest column of the nearest row of the image |
| RowPipeline.PadRow | lib/jpegli/encode.cc:577-588 | the sample one left of the row and those behind its end are those of the nearest column |
| RowPipeline.Input.ComputeAdaptiveQuantField | lib/jpegli/adaptive_quantization.cc:526-549 | the windows of the pre-erosion map follow each other without gap or overlap, and each row is computed from the right rows of the image |
| RowPipeline.Input.ProcessiMCURow | lib/jpegli/encode.cc:602-619 | there is a row left to process, and the image and pre-erosion rows read, context included, are those of the unbounded image |
| RowPipeline.Input.ProcessiMCURows | lib/jpegli/encode.cc:621-633 | the rows of interleaved MCUs that are done are those the number of buffered rows determines: each once, in order |
| RowPipeline.Input.WriteScanlines | lib/jpegli/encode.cc:1125-1166 | under any pattern of suspension every scanline is read once and, at the end, every row of interleaved MCUs was processed as intended: each sample it read, borders and context included, is that of the nearest row and column of the image |
| MemoryDestination.Manager.EmptyOutputBuffer | lib/jpegli/destination_manager.cc:68-84 | the doubled buffer keeps everything written so far |
| MemoryDestination.Manager.WriteOutput | lib/jpegli/bitstream.cc:25-38 | appends the bytes across any number of buffer changes |
| MemoryDestination.WriteFile | lib/jpegli/destination_manager.cc:86-89 | the application finds exactly what was written, for every initial buffer and every division into writes |
| InverseColorMap.Bounds | lib/jpegli/color_quantize.cc:419-441 | the two bounds enclose the distance of a colour from every pixel of the cell |
| InverseColorMap.NearBelowFar | lib/jpegli/color_quantize.cc:442-446 | no colour is as near to a whole cell as it is far from it, which is why the strict comparison loses nothing |
| InverseColorMap.FindCandidatesForCell | lib/jpegli/color_quantize.cc:404-447 | lists exactly the colours whose least distance is below the smallest greatest distance |
| InverseColorMap.CandidatesSuffice | lib/jpegli/color_quantize.cc:442-446 | for every pixel of the cell the list has a colour as near as any colour of the palette |
| MixedRadix.Increment | lib/jpegli/color_quantize.cc:466-470 | the odometer moves to the next number and stays in range until the last |
| MixedRadix.IndexInjective | lib/jpegli/color_quantize.cc:466-470 | different cells have different numbers |
| InverseColorMap.CreateInverseColorMap | lib/jpegli/color_quantize.cc:451-473 | every cell has its own candidates under its number |
| InverseColorMap.CellNumber | lib/jpegli/color_quantize.cc:484-489 | the stride formula names the cell that the odometer counted |
| InverseColorMap.DistanceByComponents | lib/jpegli/color_quantize.cc:28 | for three components the distance is 4 dr^2 + 9 dg^2 + db^2 |
| InverseColorMap.LookupColorIndex | lib/jpegli/color_quantize.cc:475-507 | the colour found has the least weighted distance of the whole palette, for every palette and pixel |
| OnePassPalette.ChooseLevels | lib/jpegli/color_quantize.cc:53-81 | fails exactly if two levels each are too many; else the product of the levels is at most the wanted number and no component can have one more; of three components green has at least as many levels as red, and red at least as many as blue |
| OnePassPalette.LevelNear | lib/jpegli/color_quantize.cc:99-108 | every table index is a level of the grid, and its value is within the stated distance of the sample on either side |
| OnePassPalette.CreateColormap | lib/jpegli/color_quantize.cc:86-98 | the palette holds every colour of the grid under its number |
| OnePassPalette.CreateTable | lib/jpegli/color_quantize.cc:99-108 | every entry is the level of its sample times the stride of its component |
| OnePassPalette.LookupColorIndex | lib/jpegli/color_quantize.cc:475-483 | the index is one of the palette and every component of its colour is near the pixel's |
| ColorQueue.DistanceIs | lib/jpegli/color_quantize.cc:150-163 | the distance of two colours is the sum of the squares of their differences and of the square of the weighted difference over 64, rounded down |
| ColorQueue.ScaledIff | lib/jpegli/color_quantize.cc:165-167 | the scaled distance is the s with (2s-1)^2 <= d < (2s+1)^2: half the root, rounded to nearest |
| ColorQueue.PriorityIff | lib/jpegli/color_quantize.cc:140-148 | the priority is p exactly if scaled distance times count, plus for every level the density times what the distance exceeds its radius by, lies in [16p, 16p+16), or reaches 16 * 8191 for the highest |
| ColorQueue.PriorityCounts | lib/jpegli/color_quantize.cc:140-148 | at equal distance and grid data, the priority grows by one for every sixteen of scaled distance times count, up to the highest |
| ColorQueue.PriorityDensity | lib/jpegli/color_quantize.cc:143-146 | and by one for every sixteen of excess times density of a level whose radius is exceeded |
| ColorQueue.IsolatedOrder | lib/jpegli/color_quantize.cc:140-148 | for colours with nothing around them the order is that of scaled distance times count, in sixteenths |
| ColorQueue.PriorityMonotone | lib/jpegli/color_quantize.cc:140-148 | a colour that comes nearer to the palette never gains priority |
| ColorQueue.AddToRGBPalette | lib/jpegli/color_quantize.cc:171-198 | distances are those from the nearest palette colour, clusters attain them, and the error changes by as much as the sum of distances times counts |
| ColorQueue.Quantizer.StartPalette | lib/jpegli/color_quantize.cc:288-312 | the start palette is exactly the colours with more than four times their share of the pixels, which are fewer than the palette may have; if there are none, one colour that occurs most often |
| ColorQueue.Quantizer.Turn | lib/jpegli/color_quantize.cc:376-389 | a colour taken has the greatest current priority of all that remain; every remaining colour stays in one bucket that bounds its priority; the queue gets lighter; among isolated colours the one taken has the greatest scaled distance times count, in sixteenths |
| ColorQueue.Quantizer.Fill | lib/jpegli/color_quantize.cc:369-390 | the loop ends, within the palette size, with distances and error exact, and only when the palette is full, no colour waits or the error is below one for each pixel |
| ColorQueue.Quantizer.ChooseColorMap2Pass | lib/jpegli/color_quantize.cc:264-400 | the palette has at least one and at most the wanted number of colours, all different colours of the image |
| TrackingMemory.TrackingMemoryManager.ReserveBytes | tools/tracking_memory_manager.cc:40-61 | the first critical section is the reservation step of the machine, of every thread in every state that the object stands for |
| TrackingMemory.TrackingMemoryManager.Reset | tools/tracking_memory_manager.cc:107-122 | succeeds exactly if counters and table are empty, and else changes nothing: the reset step of the machine |
| TrackingMemory.TrackingMemoryManager.RecordAddress | tools/tracking_memory_manager.cc:64-66 | the object stands for the state after the recording step of the thread that obtained the address |
| TrackingMemory.TrackingMemoryManager.RollBack | tools/tracking_memory_manager.cc:67-73 | the giving-up step of a thread whose inner allocation failed: the reservation is returned and the failure reported |
| TrackingMemory.TrackingMemoryManager.EraseAddress | tools/tracking_memory_manager.cc:85-97 | finds exactly the entries of the table and removes only that one: the first step of freeing, with the bytes that its thread then holds |
| TrackingMemory.TrackingMemoryManager.ReleaseBytes | tools/tracking_memory_manager.cc:99-103 | the releasing step: returns the bytes of the erased entry |
| TrackingMemory.StepKeeps | tools/tracking_memory_manager.cc:33-105 | every step of every thread keeps the accounts, the limits and the places of the addresses |
| TrackingMemory.PlacesKeep | tools/tracking_memory_manager.cc:85-104 | an address that is handed out again is never still in the table, because it is erased before the inner free |
| TrackingMemory.CanGiveBack | tools/tracking_memory_manager.cc:70-72 | what is given back is accounted for, so no counter wraps below zero |
| TrackingMemory.AlwaysBalanced | tools/tracking_memory_manager.cc:33-105 | under every interleaving, bytes and allocations in use are the table's plus those in flight, and a cap is never exceeded |
| TrackingMemory.ResetIffAllFreed | tools/tracking_memory_manager.cc:107-122 | with no call under way, Reset succeeds exactly if every successful allocation was freed |
| TrackingStatistics.StatisticsTell | tools/tracking_memory_manager.cc:42-72 | under every interleaving without Reset: the maximum is that of the bytes in use over all states of the run, memory ran out exactly if an allocation was refused or failed, the number of allocations is that of the reservations, and the total is that of their sizes unless one was refused for it |
| TrackingMemory.TotalStays | tools/tracking_memory_manager.cc:42-49 | at the limit on the total the total stays, under every run of all threads without `Reset` |
| TrackingMemory.TotalLimitIffLasting | tools/tracking_memory_manager.cc:42-49 | after an allocation was refused for the total, no later one of at least a byte is admitted before `Reset`, in any run: exactly if there is such a limit; without one there is a run in which the next is admitted |
| Gaussian.MultipliersRecur | tools/gauss_blur.cc:510-521 | the precomputed multipliers obey the recurrence of the filter |
| Gaussian.LanesAreResponses | tools/gauss_blur.cc:120-165 | four lanes compute four consecutive outputs of the recurrence |
| Gaussian.FastGaussian1D | tools/gauss_blur.cc:46-207 | every output of a row is the zero-padded recurrence, summed over the three filters, for every length and positive radius, with vectors of four lanes and without vectors |
| Gaussian.VerticalBlock | tools/gauss_blur.cc:264-299 | the four-slot ring always holds the two previous outputs |
| Gaussian.VerticalStrip | tools/gauss_blur.cc:304-373 | every output of a column is the same recurrence |
| Gaussian.BothPasses | tools/gauss_blur.cc:46-373 | the unrolled row pass and the column pass compute the same function of a line |

## Left out

- CodeWriter.WriteTokens: one run of tokens with one pair of tables; restart markers between tokens are not modelled.
- EarlyMarker.MarkerRollback: stated for MCUs whose blocks do not overlap, which `SlotsDisjoint` proves when the components are stored one behind the other.
- RoundTrip.ScanRoundTrip: about sequential scans; progressive ones are in `ProgressiveRoundTrip` and `ProgressiveFile`.
- ProgressiveFile.ScriptDelivers: about the blocks of a component in the order in which they are coded; the passage through MCUs, restarts and suspension is proved for all scans in `ScanDecoder` and `Suspension`, but the two are not joined as `WholeScan` joins them for sequential scans.
- ProgressiveTokens.TokenizeProgressiveDC: one block; the order of blocks in interleaved scans is that of `ScanItems`, and DC refinement bits are those of `Refinement.DcBits`.
- RefinementTokens.TokenizeACRefinementScan: the room in the token buffer is what the caller has to provide for the scan; how `TokenizeJpeg` adds it up over the scans of a file, and the counts of nonzero coefficients it uses, are not modelled, and correction bits are kept in a sequence.
- RefinementWriter.WriteACRefinementTokens: tokens of a scan without restarts, as for `WriteTokens`; the buffer is emptied after every len/64 tokens, and `CyclesFit` says that these have room, as they do if none takes more than 255 bits with its correction bits (`NarrowTokensFit`).
- WholeScan.ScanStored: sequential scans over the storage of the whole image; that the non-streaming encoder emits restart markers where `Emission` has them is not modelled.
- Suspension.PiecesAgree: resynchronisation at an unexpected restart marker and the calls between scans are outside; the scan stops there with the same answer.
- FilePrecision.FilePrecise: a scan that ends by putting a stale snapshot back is excluded (`RollsBackAtEnd`, the condition of `MarkerRollback`), and the storage is that of the whole image, as it is for files of several scans.
- SharedSink.PiecesDisagree: one scan that is not `Neutral`; that the sink can matter in all others is shown for a single MCU (`SinkIrrelevantIff`); for whole runs it also depends on the tables, since a table without a symbol that creates a coefficient never fills the sink.
- ScanScript.ProcessSOS: the reading of the header bytes is not modelled.
- StreamEncoder.WriteiMCURow: the transform and quantization that produce the blocks are parameters: the image is given as coefficients.
- ColorQueue.Quantizer.ChooseColorMap2Pass: the histogram and its density grid are parameters (densities are not negative); the square root is exact, and 32-bit overflow of products is not modelled.
- RowPipeline.Input.WriteScanlines: the conversion of samples and the arithmetic of smoothing and adaptive quantization are not modelled, only which rows are read and written; raw-data input is left out.
- Gaussian.FastGaussian1D: rounding of floats, the computation of the coefficients from sigma, two lanes (the unrolled loop names four whenever there are vectors), and radius zero, for which the coefficients are not defined, are left out.
- TrackingMemory.StepKeeps: the number of allocations in flight is unbounded; misuse by callers (freeing an unknown address) is not a step.
- Coefficient and prediction storage is one array with an offset for each component; 16-bit storage is modelled where a value can leave it.
- Contexts of the original that end in `JPEGLI_ERROR` are an abort outcome; warnings are not modelled.
- Optimal Huffman codes, token histograms, headers, ICC and Exif data, colour transforms, DCT, upsampling and rendering.
- Dithering.
- Fill callbacks that first succeed and later suspend.
