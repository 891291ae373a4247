# Entropy codecs, buffer controllers and frame ownership, modelled and proved

This project models, in Dafny, the parts of the Android UVC camera application that are hard to get right by
inspection, and proves that they do what they are for. Most of them belong to the JPEG library that the
application carries (libjpeg 9); two belong to its camera code.

- **The arithmetic codec** (ITU-T T.81, Annex D and sections F.1.4, F.2.4 and G.1.3). An interval coder on
  unbounded integers, for which every byte string in the final interval decodes to the run of decisions that
  led there; the encoder's registers with carry, stacked 0xFF bytes and pending zero bytes; the decoder's
  registers; byte stuffing; the binary decisions of all five MCU routines; restart intervals. The end result
  is a round trip of whole scans.
- **The Huffman codec** (T.81, Annex C and sections F.1.2, F.2.2, G.1.2 and K.2). Canonical codes and the
  derived tables of both sides, bit input and output, lookahead decoding, end-of-band runs with buffered
  correction bits, the statistics pass and the optimal tables made from it, decoding that may be suspended
  anywhere and tried again. The end result is a round trip of whole scans for every way to cut the input into
  pieces.
- **Progression scripts.** Which scripts are accepted, that after any legal script, or any part of one from
  its start, every coefficient is held at the precision of the last scan that had it, through either codec,
  and what reducing a script keeps.
- **Controllers.** The coefficient controllers of both sides, the context rows of the compressor's
  preprocessing and of the decompressor's main controller.
- **The merge sort of linked lists** in the camera code's list macros, and **the ownership of video frames**
  by the camera's threads.

## How it is built

Code that changes state is modelled by classes with the source's fields, by methods with loops, and by methods
on arrays. Each method is proved against a function of the values involved, and the properties are proved of
these functions.

- `Bits`, `BitStrings`: powers of two, numbers as bytes and bits.
- `Estimation`, `AritTable`, `IntervalCoder`, `ByteStuffing`, `ArithEncoder`, `ArithDecoder`: from the
  probability estimation table to a coder for binary decisions.
- `Scans`, `Segments`, `Precision`: what both codecs share: scan parameters, what decoding makes of a block,
  restart intervals, and what that means for the value of a coefficient.
- `ArithModel`, `ArithScan`, `ArithAreas`, `ArithScanEncoder`, `ArithScanDecoder`, `ArithRoundTrip`,
  `ArithFigures`: coefficients as decisions. Scripts of decisions are functions of what is still to come, so
  that a coder's loop takes them apart from the front. `ArithFigures` says in numbers which decisions these
  are and which statistics they use, `HuffFigures` which symbols the Huffman coder has.
- `CodeLengths`, `CodeCounts`, `HuffProcedure`, `LengthLimit`, `HuffOptimal`, `HuffCodes`, `HuffTables`:
  Huffman codes and tables. `BitWriter`, `BitReader`: bits in stuffed bytes.
- `HuffModel`, `HuffTokens`, `HuffScanEncoder`, `HuffDecoding`, `HuffScanDecoder`, `HuffInverse`,
  `HuffRoundTrip`, `HuffSymbolCount`, `HuffStatistics`, `HuffFigures`: coefficients as symbols.
- `ScanScript`, `SimpleScripts`, `Progression`, `Transmission`: scripts.
- `McuLayout`, `CoefControllers`, `DecoefControllers`, `ScanLayout`, `ImageRows`, `ContextRing`,
  `FunnyPointers`: controllers. `StableMerge`, `UtListSort`: the sort. `FrameOwnership`: the frames.

`dafny verify dfyconfig.toml` verifies all of it.

## Findings

Some of what one would expect of the code does not hold of it. The condition under which it does is part of
the model.

- The arithmetic decoder takes a DC difference above 0x8000 in magnitude for a corrupt code, although 16-bit
  coefficients allow it and the encoder writes it. It fails exactly there
  (`ArithScanDecoder.ScanDecoder.DecodeMcu`, `ArithScanDecoder.RejectedDifference`).
- The exit of the optimal table maker for code lengths above 32 can be taken
  (`HuffProcedure.FibonacciTooLong`), but only for counts that add up to 9227464 or more
  (`HuffProcedure.FewNeverTooLong`). It is taken exactly when Huffman's procedure gives such a length.
- The decompressor's context rows are the image's own, except where the last iMCU row holds fewer rows than a
  row group, and is not the only one: then the row group before it is shown a row of the decoder's padding in
  place of the repeated last row (`FunnyPointers.MainController.PaddingShown`; an image of 17 rows is
  `FunnyPointers.MainController.PaddingExample`). In all other cases they are right
  (`FunnyPointers.MainController.TrueContext`).
- Frames get lost, neither recycled nor freed, in exactly two places: when a frame cannot be decoded, and when
  a frame is to be captured after the preview was stopped. In every state of every run the frames without an
  owner are those lost there (`FrameOwnership.TwoLeaks`), and there are runs that lose one in either place
  (`FrameOwnership.DecodingLeaks`, `FrameOwnership.CapturingLeaks`).
- The entropy decoder leaves coefficients alone that are zero in the data. A block comes out right exactly if
  it held zeros there before (`DecoefControllers.OnlyFromZeros`); this is what the decompressor's zeroed
  arrays are for.

## Model

| member | source | states |
|---|---|---|
| `IntervalCoder.IdealRoundTrip` | app/src/main/cpp/libjpeg-version-9/libjpeg9/jdarith.c:105-182 | every byte string in the final interval of a run of decisions decodes, bin by bin, to exactly these decisions, and leaves the statistics bins as the encoder left them |
| `ArithFigures.MoreForTheMoreProbable` | app/src/main/cpp/libjpeg-version-9/libjpeg9/jcarith.c:235-258 | the two parts make up the interval, one of them has size Qe, and the more probable symbol never gets the smaller one |
| `ArithFigures.AdaptsWhenRenormalized` | app/src/main/cpp/libjpeg-version-9/libjpeg9/jcarith.c:235-258 | the estimate changes exactly when the interval has to be renormalized |
| `Estimation.PackedRowDrivesBins` | app/src/main/cpp/libjpeg-version-9/libjpeg9/jaricom.c:28-153 | the packed table entries, taken apart with the masks and exclusive-or of the coders, are the state machine of Table D.3 on index and more probable symbol |
| `ArithEncoder.FinalPointIn` | app/src/main/cpp/libjpeg-version-9/libjpeg9/jcarith.c:138-145 | the value that ends the encoding lies in the coding interval |
| `ArithEncoder.FinalPointBest` | app/src/main/cpp/libjpeg-version-9/libjpeg9/jcarith.c:138-145 | no value of the interval ends in more zero bits than the one chosen |
| `ArithEncoder.Encoder.ByteOut` | app/src/main/cpp/libjpeg-version-9/libjpeg9/jcarith.c:261-310 | moving a byte out of the C register, with a carry or without, keeps this invariant: bytes written, pending zeros, held byte, stacked 0xFF bytes and register together are the base of the ideal interval; the held byte is never 0xFF, no carry leaves the first byte, and what is written is stuffed |
| `ArithEncoder.Encoder.CarryOver` | app/src/main/cpp/libjpeg-version-9/libjpeg9/jcarith.c:263-279 | a carry turns the stacked 0xFF bytes into pending zeros and adds one to the held byte, which goes out with the zeros before it |
| `ArithEncoder.Encoder.ReleaseStacked` | app/src/main/cpp/libjpeg-version-9/libjpeg9/jcarith.c:281-302 | without a carry the held byte and the stacked bytes go out unchanged, zero bytes at the end being kept back |
| `ArithEncoder.Encoder.ArithEncode` | app/src/main/cpp/libjpeg-version-9/libjpeg9/jcarith.c:218-311 | one decision makes one step of the ideal interval coder, interval and bins, and keeps the register invariant |
| `ArithEncoder.Encoder.FinishPass` | app/src/main/cpp/libjpeg-version-9/libjpeg9/jcarith.c:132-193 | the segment written is the stuffed form of data that lies in the final interval of the whole run and does not end in a zero byte |
| `ByteStuffing.StuffHasNoMarker` | app/src/main/cpp/libjpeg-version-9/libjpeg9/jcarith.c:290-305 | in stuffed data every 0xFF is followed by 0x00 |
| `ByteStuffing.StuffedSegment` | app/src/main/cpp/libjpeg-version-9/libjpeg9/jdarith.c:117-145 | reading removes exactly the stuffing, up to the marker, whatever follows it |
| `ArithDecoder.Decoder.ArithDecode` | app/src/main/cpp/libjpeg-version-9/libjpeg9/jdarith.c:105-182 | decodes the bit whose part of the current interval the code lies in, zeros being read after the marker, and makes the step of the ideal coder |
| `ArithDecoder.Decoder.Decode` | app/src/main/cpp/libjpeg-version-9/libjpeg9/jdarith.c:105-182 | as long as the bins asked for are those of an encoded run, the bits are those of the run |
| `ArithDecoder.Decoder.ReadRestartMarker` | app/src/main/cpp/libjpeg-version-9/libjpeg9/jdarith.c:189-198 | advances past the marker that ends the segment, and accepts it if and only if it is the restart marker expected |
| `ArithAreas.BlockWithin` | app/src/main/cpp/libjpeg-version-9/libjpeg9/jcarith.c:361-832 | every decision of a block, in all five modes, uses the fixed bin or a bin of the 64 or 256 that belong to the tables of its component |
| `ArithAreas.ScriptWithin` | app/src/main/cpp/libjpeg-version-9/libjpeg9/jcarith.c:361-832 | the same for any sequence of blocks with their predictions and contexts |
| `ArithFigures.AreasApart` | app/src/main/cpp/libjpeg-version-9/libjpeg9/jcarith.c:879-942 | the areas of different tables, 64 bins for DC and 256 for AC, have no bin in common with each other or the fixed bin |
| `ArithFigures.BlocksApart` | app/src/main/cpp/libjpeg-version-9/libjpeg9/jcarith.c:361-832 | so two components with different tables never share a statistics bin, except the fixed one |
| `ArithAreas.JpegFixedEntry` | app/src/main/cpp/libjpeg-version-9/libjpeg9/jaricom.c:148-152 | entry 113 of the table leads to itself with either symbol |
| `ArithAreas.FixedBinStays` | app/src/main/cpp/libjpeg-version-9/libjpeg9/jcarith.c:941-942 | no run of decisions, in whatever bins, changes the fixed bin from state 113 |
| `ArithAreas.FixedInChain` | app/src/main/cpp/libjpeg-version-9/libjpeg9/jcarith.c:940-942 | at the start and at the end of every restart interval the fixed bin is in state 113 |
| `ArithScanDecoder.ScanDecoder.FixedBinKept` | app/src/main/cpp/libjpeg-version-9/libjpeg9/jdarith.c:766-769 | the decoder never changes its fixed bin, whatever bytes it reads |
| `ArithScanEncoder.ScanEncoder.EncodeDc` | app/src/main/cpp/libjpeg-version-9/libjpeg9/jcarith.c:397-440 | encodes the decisions of Figures F.4 and F.6 to F.9 for the difference, and keeps prediction and conditioning context |
| `ArithFigures.DcContextIs` | app/src/main/cpp/libjpeg-version-9/libjpeg9/jcarith.c:429-435 | the conditioning category: 0 for differences up to half of 2^L, 4 and 8 for small ones, 12 and 16 for those above 2^U |
| `ArithFigures.DcDiffIs` | app/src/main/cpp/libjpeg-version-9/libjpeg9/jcarith.c:398-440 | zero, sign, and a magnitude from 2^n + 1 to 2^(n + 1) as n ones, a zero, and n bits, in the bins of Table F.4 |
| `ArithFigures.NextPrediction` | app/src/main/cpp/libjpeg-version-9/libjpeg9/jcarith.c:398-434 | a component is predicted from its own last block in the segment, and conditioned by the difference of that one |
| `ArithFigures.FirstPrediction` | app/src/main/cpp/libjpeg-version-9/libjpeg9/jcarith.c:333-339 | the first block of a component in a segment is predicted from 0 in category 0 |
| `ArithScanEncoder.ScanEncoder.EncodeAc` | app/src/main/cpp/libjpeg-version-9/libjpeg9/jcarith.c:470-547 | encodes the decisions of Figure F.5 for the band after the point transform |
| `ArithFigures.AcFromIs` | app/src/main/cpp/libjpeg-version-9/libjpeg9/jcarith.c:492-546 | no end of block, a run of zeros, the next coefficient and so on; the end of block after the last one unless it ends the band |
| `ArithFigures.AcNewIs` | app/src/main/cpp/libjpeg-version-9/libjpeg9/jcarith.c:497-540 | sign in the fixed bin and magnitude of an AC coefficient, in the bins of Table F.5, which depend on Kx only for magnitudes above 2 |
| `ArithScanEncoder.ScanEncoder.EncodeAcRefine` | app/src/main/cpp/libjpeg-version-9/libjpeg9/jcarith.c:614-681 | encodes the decisions of Figure G.10, with the end of block of the previous pass taken into account |
| `ArithFigures.RefinementExample` | app/src/main/cpp/libjpeg-version-9/libjpeg9/jcarith.c:642-681 | the decisions for a band with two known and two new coefficients |
| `ArithScanEncoder.ScanEncoder.EncodeBlock` | app/src/main/cpp/libjpeg-version-9/libjpeg9/jcarith.c:361-832 | each of the five routines encodes the decisions of its block and takes the predictions to the next |
| `ArithScanEncoder.ScanEncoder.EmitRestart` | app/src/main/cpp/libjpeg-version-9/libjpeg9/jcarith.c:318-353 | ends the segment, writes the marker, and starts with the statistics areas of the scan cleared and the fixed bin left alone |
| `ArithFigures.FreshStatistics` | app/src/main/cpp/libjpeg-version-9/libjpeg9/jcarith.c:330-343 | every restart interval of a scan starts with all bins of the DC areas (except in DC refinements) and of the AC areas (if there are AC coefficients) of its components cleared, whatever the interval before left in them |
| `ArithScanEncoder.ScanEncoder.EncodeMcu` | app/src/main/cpp/libjpeg-version-9/libjpeg9/jcarith.c:691-832 | encodes the decisions of the blocks of an MCU in order |
| `ArithScanDecoder.ScanDecoder.DecodeDc` | app/src/main/cpp/libjpeg-version-9/libjpeg9/jdarith.c:263-306 | gives back the value whose difference was encoded, with the same context, and fails if and only if the difference is larger than 0x8000 in magnitude |
| `ArithScanDecoder.ScanDecoder.DecodeAc` | app/src/main/cpp/libjpeg-version-9/libjpeg9/jdarith.c:337-390 | places the coefficients that were encoded, scaled, in the band, and changes nothing else |
| `ArithScanDecoder.ScanDecoder.PreviousEnd` | app/src/main/cpp/libjpeg-version-9/libjpeg9/jdarith.c:455-459 | finds the last nonzero coefficient that the block holds: what the encoder computed from the previous precision |
| `ArithScanDecoder.ScanDecoder.DecodeAcRefine` | app/src/main/cpp/libjpeg-version-9/libjpeg9/jdarith.c:433-501 | brings a block that holds the band at the previous precision to the new one, exactly as encoded |
| `ArithScanDecoder.ScanDecoder.DecodeBlock` | app/src/main/cpp/libjpeg-version-9/libjpeg9/jdarith.c:241-633 | inverts the encoding of a block in all five modes, the predictions included |
| `ArithScanDecoder.ScanDecoder.CheckRestart` | app/src/main/cpp/libjpeg-version-9/libjpeg9/jdarith.c:248-252 | a due restart is accepted if and only if the marker is the one expected; statistics, predictions and the segment then start afresh |
| `ArithScanDecoder.ScanDecoder.DecodeMcu` | app/src/main/cpp/libjpeg-version-9/libjpeg9/jdarith.c:508-633 | decodes the blocks of an MCU as encoded; it gives up if and only if some DC difference is one that the decoder does not accept |
| `ArithScanDecoder.RejectedDifference` | app/src/main/cpp/libjpeg-version-9/libjpeg9/jdarith.c:282-287 | the DC values -0x8000 and 0x7FFF in a row are such a case |
| `ArithRoundTrip.SegmentsStay` | app/src/main/cpp/libjpeg-version-9/libjpeg9/jcarith.c:318-353 | no decision of an encoded scan, restarts included, is outside the statistics areas of the tables of the scan |
| `ArithFigures.SegmentIs` | app/src/main/cpp/libjpeg-version-9/libjpeg9/jcarith.c:373-380 | restart interval i has the MCUs from ir on, r of them or those that are left |
| `ArithRoundTrip.EncodeScan` | app/src/main/cpp/libjpeg-version-9/libjpeg9/jcarith.c:132-193 | the bytes of a scan are the stuffed segments of its restart intervals, with numbered restart markers between them, each segment in the final interval of its decisions |
| `ArithRoundTrip.DecodeScan` | app/src/main/cpp/libjpeg-version-9/libjpeg9/jdarith.c:105-633 | decodes all MCUs of such bytes to what was encoded, in all five modes, for every restart interval |
| `ArithRoundTrip.ScanRoundTrip` | app/src/main/cpp/libjpeg-version-9/libjpeg9/jdarith.c:105-633 | encoding a scan and decoding it gives each block the encoded coefficients at the precision of the scan |
| `HuffCodes.PrefixFree` | app/src/main/cpp/libjpeg-version-9/libjpeg9/jchuff.c:206-221 | at most one code word of the canonical code is a prefix of a bit string |
| `HuffCodes.NoAllOnes` | app/src/main/cpp/libjpeg-version-9/libjpeg9/jchuff.c:206-221 | no code word consists of ones only, and each fits its length |
| `HuffFigures.CodeWordsFollow` | app/src/main/cpp/libjpeg-version-9/libjpeg9/jchuff.c:206-221 | the first code word is 0, and each next one is one more than the last, with zeros appended up to its length |
| `HuffFigures.LegalInNumbers` | app/src/main/cpp/libjpeg-version-9/libjpeg9/jchuff.c:190-223 | legal counts are those with at most 256 codes that take up less than 65536 of the 65536 words of 16 bits |
| `HuffCodes.CodesAndNumbers` | app/src/main/cpp/libjpeg-version-9/libjpeg9/jchuff.c:192-221 | code words correspond one to one to the symbols listed, in order of length |
| `HuffCodes.DecodesCodeWord` | app/src/main/cpp/libjpeg-version-9/libjpeg9/jdhuff.c:168-188 | a bit string that starts with the code word of a symbol is decoded to this symbol, and exactly its bits are taken |
| `HuffTables.CodeLengths` | app/src/main/cpp/libjpeg-version-9/libjpeg9/jchuff.c:190-201 | the list of code lengths (Figure C.1); an error if and only if there are more than 256 codes |
| `HuffTables.GenerateCodes` | app/src/main/cpp/libjpeg-version-9/libjpeg9/jchuff.c:203-223 | the code words (Figure C.2); an error if and only if the counts leave no room for an all-ones word |
| `HuffTables.MakeCDerived` | app/src/main/cpp/libjpeg-version-9/libjpeg9/jchuff.c:160-246 | accepts a table if and only if its code is legal, its symbols are in range and no symbol is listed twice; the derived table then gives each symbol its code word, and size 0 to all others |
| `HuffTables.SlowTable` | app/src/main/cpp/libjpeg-version-9/libjpeg9/jdhuff.c:387-402 | the largest code of each length and the offset to its symbols, with a sentinel at length 17 |
| `HuffTables.LookTable` | app/src/main/cpp/libjpeg-version-9/libjpeg9/jdhuff.c:404-425 | each of the 256 lookahead entries tells the code word of at most eight bits that its bits start with, or that there is none |
| `HuffTables.MakeDDerived` | app/src/main/cpp/libjpeg-version-9/libjpeg9/jdhuff.c:322-440 | accepts a table if and only if its code is legal and, for DC, all symbols are at most 15; the derived tables then denote that code |
| `HuffTables.LookAhead` | app/src/main/cpp/libjpeg-version-9/libjpeg9/jdhuff.c:168-188 | for every bit string the lookahead entry agrees with the one matching code word, or rules out those of up to eight bits |
| `HuffTokens.EncodedSymbol` | app/src/main/cpp/libjpeg-version-9/libjpeg9/jchuff.c:190-245 | the encoder puts out the code word of a symbol, and size 0 tells exactly the symbols without one |
| `HuffTokens.DecodedSymbol` | app/src/main/cpp/libjpeg-version-9/libjpeg9/jdhuff.c:168-188 | what the encoder puts out for a symbol is decoded to it, whatever follows |
| `BitWriter.Writer.EmitBits` | app/src/main/cpp/libjpeg-version-9/libjpeg9/jchuff.c:305-341 | appends the low bits of the code to the stream, all complete bytes being written and stuffed; fails if and only if the size is 0 |
| `BitWriter.Writer.Flush` | app/src/main/cpp/libjpeg-version-9/libjpeg9/jchuff.c:385-393 | completes the last byte with at most seven one bits |
| `BitWriter.Writer.EmitMarker` | app/src/main/cpp/libjpeg-version-9/libjpeg9/jchuff.c:489-507 | writes a marker after the stuffed data, and starts anew |
| `BitReader.Reader.FillBitBuffer` | app/src/main/cpp/libjpeg-version-9/libjpeg9/jdhuff.c:464-562 | either the bits asked for are at hand, zeros being supplied after the marker and the shortage noted exactly then, or the source has not delivered the segment in full; no bit is lost or made up |
| `BitReader.Reader.GetBits` | app/src/main/cpp/libjpeg-version-9/libjpeg9/jdhuff.c:135-148 | the next bits as a number, and the stream moved on by them; or suspension |
| `BitReader.Reader.SlowDecode` | app/src/main/cpp/libjpeg-version-9/libjpeg9/jdhuff.c:591-627 | decoding bit by bit from a length that no matching code word is shorter than gives the one matching code word, on every bit stream; for a stream without one it stops at the sentinel with symbol 0 |
| `BitReader.Reader.HuffDecode` | app/src/main/cpp/libjpeg-version-9/libjpeg9/jdhuff.c:168-188 | lookahead and bit by bit decoding give the one matching code word on every bit stream, however much of it is at hand |
| `BitReader.Reader.ReadRestartMarker` | app/src/main/cpp/libjpeg-version-9/libjpeg9/jdhuff.c:635-668 | drops the bits at hand and gets past the expected marker, waits for data, or finds another marker |
| `CodeLengths.MergeLosesNothing` | app/src/main/cpp/libjpeg-version-9/libjpeg9/jchuff.c:1279-1327 | merging the two smallest counts loses nothing: from any decodable lengths come ones for the merged counts that cost less by at least what the merge adds |
| `CodeLengths.EndIsOptimal` | app/src/main/cpp/libjpeg-version-9/libjpeg9/jchuff.c:1279-1327 | lengths that come out of such merges cost no more than any decodable lengths |
| `HuffProcedure.SmallestIsLeast` | app/src/main/cpp/libjpeg-version-9/libjpeg9/jchuff.c:1282-1302 | the search finds a symbol with the least count; of equal ones that with the largest number |
| `HuffOptimal.FindSmallest` | app/src/main/cpp/libjpeg-version-9/libjpeg9/jchuff.c:1282-1302 | the same of the loop over the array |
| `HuffOptimal.Merge` | app/src/main/cpp/libjpeg-version-9/libjpeg9/jchuff.c:1308-1326 | merging two branches keeps a forest of disjoint chains, each with Kraft sum 1, and makes the lengths of exactly their symbols one longer |
| `HuffOptimal.AssignLengths` | app/src/main/cpp/libjpeg-version-9/libjpeg9/jchuff.c:1281-1327 | Huffman's procedure ends with all counted symbols on one chain of Kraft sum 1, and the code lengths are optimal among all decodable ones |
| `HuffOptimal.CountLengths` | app/src/main/cpp/libjpeg-version-9/libjpeg9/jchuff.c:1329-1339 | counts the lengths without overflow of a byte; takes the error exit if and only if some length is above 32 |
| `HuffOptimal.Adjust` | app/src/main/cpp/libjpeg-version-9/libjpeg9/jchuff.c:1353-1362 | one such adjustment; a code to be split is always found |
| `HuffOptimal.LimitLengths` | app/src/main/cpp/libjpeg-version-9/libjpeg9/jchuff.c:1352-1363 | brings all lengths down to 16, keeping the number of codes and a complete code, by a chain of single adjustments, each of which takes two codes of the longest length in use and splits the longest code that is at least two bits shorter; counts without longer codes are left alone |
| `LengthLimit.OneResult` | app/src/main/cpp/libjpeg-version-9/libjpeg9/jchuff.c:1352-1363 | all chains of such adjustments from the same counts to lengths of at most 16 are the same |
| `LengthLimit.ShorterKept` | app/src/main/cpp/libjpeg-version-9/libjpeg9/jchuff.c:1352-1363 | 2n codes of length 17, the longest, and at least n of lengths m to 15 take n adjustments, and the counts below m stay as they are |
| `HuffOptimal.DropLongest` | app/src/main/cpp/libjpeg-version-9/libjpeg9/jchuff.c:1365-1368 | takes the pseudo-symbol's code from the largest length in use |
| `HuffOptimal.ListSymbols` | app/src/main/cpp/libjpeg-version-9/libjpeg9/jchuff.c:1377-1385 | lists each coded real symbol once, in order of code length |
| `HuffOptimal.GenOptimalTable` | app/src/main/cpp/libjpeg-version-9/libjpeg9/jchuff.c:1255-1389 | the table has a code for exactly the counted symbols, none longer than 16 and none of ones only; the lengths before limiting are optimal, the limited ones come from them by adjustments as above and the removal of one code of the longest length, and none is longer than before when none is above 16; the error exit is taken if and only if Huffman's procedure makes a length above 32 |
| `HuffOptimal.ShortCodesKept` | app/src/main/cpp/libjpeg-version-9/libjpeg9/jchuff.c:1352-1368 | where 17 is the longest length, with 2n codes, and lengths m to 15 have at least n, the table has as many codes of each length below m as Huffman's procedure gave |
| `HuffProcedure.SizeTakesCounts` | app/src/main/cpp/libjpeg-version-9/libjpeg9/jchuff.c:1279-1327 | a code length of s needs counts that add up to the (s+2)nd Fibonacci number |
| `HuffProcedure.FewNeverTooLong` | app/src/main/cpp/libjpeg-version-9/libjpeg9/jchuff.c:1332-1335 | so below 9227464 counted symbols the error exit is never taken |
| `HuffProcedure.FibonacciTooLong` | app/src/main/cpp/libjpeg-version-9/libjpeg9/jchuff.c:1332-1335 | there are counts for which it is taken |
| `HuffModel.FirstPartStream` | app/src/main/cpp/libjpeg-version-9/libjpeg9/jchuff.c:664-726 | in a run of blocks the symbols of a first scan are the explicit ones of the block, then either the block joins the end-of-band run or the next block follows |
| `HuffModel.RefinePartStream` | app/src/main/cpp/libjpeg-version-9/libjpeg9/jchuff.c:817-907 | the same for a refinement, the correction bits after the last new coefficient going with the run |
| `HuffFigures.CodableInNumbers` | app/src/main/cpp/libjpeg-version-9/libjpeg9/jchuff.c:984-986 | no error exit is taken exactly if no DC difference is above 2047 and no AC value above 1023 in magnitude |
| `HuffFigures.DcTokensAre` | app/src/main/cpp/libjpeg-version-9/libjpeg9/jchuff.c:577-612 | a DC difference of n + 1 bits: symbol n + 1, then its bits, less one if it is negative |
| `HuffFigures.AcFromIs` | app/src/main/cpp/libjpeg-version-9/libjpeg9/jchuff.c:656-721 | a run of zeros and an AC value of n + 1 bits: one symbol 0xF0 for each 16 zeros, a symbol with the rest of the run and n + 1, and the bits |
| `HuffFigures.EobRunIs` | app/src/main/cpp/libjpeg-version-9/libjpeg9/jchuff.c:458-478 | a run of 2^k to 2^(k + 1) - 1 blocks: the symbol for k, then k bits |
| `HuffFigures.RunGoesOn` | app/src/main/cpp/libjpeg-version-9/libjpeg9/jchuff.c:884-893 | a block joins the run unless it has 0x7FFF blocks already, or more than 937 correction bits are buffered; then the run is put out |
| `HuffFigures.RefinementExample` | app/src/main/cpp/libjpeg-version-9/libjpeg9/jchuff.c:817-907 | the symbols, sign bits and correction bits for a band with three known and two new coefficients |
| `HuffFigures.NextBlockIs` | app/src/main/cpp/libjpeg-version-9/libjpeg9/jchuff.c:577-612 | a component is predicted from its own last block |
| `HuffFigures.SegmentIs` | app/src/main/cpp/libjpeg-version-9/libjpeg9/jchuff.c:489-532 | restart interval i has the MCUs from ir on, r of them or those that are left, and starts with predictions of 0 |
| `HuffScanEncoder.ScanEncoder.EmitSymbol` | app/src/main/cpp/libjpeg-version-9/libjpeg9/jchuff.c:410-432 | the output pass emits the code word of the symbol, the statistics pass counts it; fails if and only if the symbol has no code |
| `HuffScanEncoder.ScanEncoder.EmitEobRun` | app/src/main/cpp/libjpeg-version-9/libjpeg9/jchuff.c:458-482 | emits a pending run of up to 0x7FFF blocks, its extra bits, and its buffered correction bits |
| `HuffScanEncoder.ScanEncoder.EncodeDc` | app/src/main/cpp/libjpeg-version-9/libjpeg9/jchuff.c:577-612 | emits the category of the difference and its bits; fails if and only if the difference is out of range or a code is missing |
| `HuffScanEncoder.ScanEncoder.EncodeAcFirst` | app/src/main/cpp/libjpeg-version-9/libjpeg9/jchuff.c:627-729 | emits the runs, categories and values of the band; the run pending after it stays below 0x7FFF, and no correction bits are buffered without a run |
| `HuffScanEncoder.ScanEncoder.EncodeAcRefine` | app/src/main/cpp/libjpeg-version-9/libjpeg9/jchuff.c:785-910 | emits new coefficients, long zero runs and correction bits in the order of Figure G.7, zero runs that end the band being folded into the run; the buffer never holds more than its 1000 bits |
| `HuffScanEncoder.ScanEncoder.EncodeOneBlock` | app/src/main/cpp/libjpeg-version-9/libjpeg9/jchuff.c:915-1008 | emits the DC difference, the runs and values, and the end of block where the block ends in zeros; fails if and only if a value is out of range or a code is missing |
| `HuffScanEncoder.ScanEncoder.HtestOneBlock` | app/src/main/cpp/libjpeg-version-9/libjpeg9/jchuff.c:1121-1188 | counts exactly the symbols that encoding the block emits |
| `HuffScanEncoder.ScanEncoder.EncodeBlock` | app/src/main/cpp/libjpeg-version-9/libjpeg9/jchuff.c:540-1065 | each routine of either pass takes the stream of symbols past its block |
| `HuffScanEncoder.ScanEncoder.EmitRestart` | app/src/main/cpp/libjpeg-version-9/libjpeg9/jchuff.c:510-532 | completes the pending run and the segment, writes the marker and starts anew |
| `HuffScanEncoder.ScanEncoder.CheckRestart` | app/src/main/cpp/libjpeg-version-9/libjpeg9/jchuff.c:551-554 | emits a restart if and only if one is due, and keeps count |
| `HuffScanEncoder.ScanEncoder.FinishPass` | app/src/main/cpp/libjpeg-version-9/libjpeg9/jchuff.c:1072-1104 | the output is the stuffed segments with numbered restart markers between them; in the statistics pass the counts are those of all symbols of the scan |
| `HuffScanDecoder.ScanDecoder.DecodeAcFirst` | app/src/main/cpp/libjpeg-version-9/libjpeg9/jdhuff.c:795-833 | on every bit stream, from a block as any earlier try has left it, gives the block, the run and the stream position that decoding without suspension gives; suspended, it leaves only final values behind |
| `HuffScanDecoder.ScanDecoder.Undo` | app/src/main/cpp/libjpeg-version-9/libjpeg9/jdhuff.c:1045-1050 | after a try that was suspended no coefficient that was zero is nonzero; corrected bits may stay |
| `HuffScanDecoder.ScanDecoder.DecodeAcRefine` | app/src/main/cpp/libjpeg-version-9/libjpeg9/jdhuff.c:902-1051 | the same for refinements: corrections made by an earlier try are recognized and not made twice, new coefficients are made again |
| `HuffScanDecoder.ScanDecoder.DecodeSequential` | app/src/main/cpp/libjpeg-version-9/libjpeg9/jdhuff.c:1187-1303 | the same for sequential blocks, with unwanted coefficients skipped |
| `HuffScanDecoder.ScanDecoder.DecodeDcRefine` | app/src/main/cpp/libjpeg-version-9/libjpeg9/jdhuff.c:873-890 | one bit per block; nothing is stored if it is not there |
| `HuffScanDecoder.ScanDecoder.DecodeBlock` | app/src/main/cpp/libjpeg-version-9/libjpeg9/jdhuff.c:694-1303 | the same for all routines: a try ends with the result of decoding without suspension, or in a state from which the next try does |
| `HuffScanDecoder.ScanDecoder.DecodeBlocks` | app/src/main/cpp/libjpeg-version-9/libjpeg9/jdhuff.c:694-1303 | an MCU: if the source runs out nothing permanent has changed, and the next try comes to the same result; otherwise blocks, run, predictions and stream position are those of decoding without suspension |
| `HuffScanDecoder.ScanDecoder.CheckRestart` | app/src/main/cpp/libjpeg-version-9/libjpeg9/jdhuff.c:701-705 | gets past a due restart marker and starts afresh, waits, or rejects exactly a marker that is not the one expected |
| `HuffInverse.DcBack` | app/src/main/cpp/libjpeg-version-9/libjpeg9/jdhuff.c:712-740 | a DC difference, sign extension included, is decoded to what was coded |
| `HuffInverse.FirstBlockBack` | app/src/main/cpp/libjpeg-version-9/libjpeg9/jdhuff.c:765-844 | a block of a first AC scan, in a run or not, is decoded to the coefficients that were coded, and the stream is where the next block starts |
| `HuffInverse.RefineBlockBack` | app/src/main/cpp/libjpeg-version-9/libjpeg9/jdhuff.c:902-1051 | a block of a refinement that holds the band at the previous precision is decoded to the new precision |
| `HuffInverse.SequentialBack` | app/src/main/cpp/libjpeg-version-9/libjpeg9/jdhuff.c:1187-1303 | a sequential block is decoded to what was coded as far as it is wanted |
| `HuffInverse.BlockBack` | app/src/main/cpp/libjpeg-version-9/libjpeg9/jdhuff.c:694-1303 | a block of any scan is decoded to what was coded |
| `HuffInverse.McuBack` | app/src/main/cpp/libjpeg-version-9/libjpeg9/jdhuff.c:694-1303 | an MCU is decoded to what was coded, runs and predictions included |
| `HuffRoundTrip.EncodeScan` | app/src/main/cpp/libjpeg-version-9/libjpeg9/jchuff.c:540-1104 | the bytes of a scan are the segments of its restart intervals; the statistics pass counts the same symbols; neither pass fails for coefficients in range and tables with the codes needed |
| `HuffRoundTrip.TryMcu` | app/src/main/cpp/libjpeg-version-9/libjpeg9/jdhuff.c:635-1303 | a try at the next MCU, restart included, decodes it as coded, or is suspended because the source has not delivered the segment in full; the next try is as good as the first |
| `HuffRoundTrip.DecodeScan` | app/src/main/cpp/libjpeg-version-9/libjpeg9/jdhuff.c:464-1303 | all MCUs are decoded to what was coded, whatever the pieces in which the bytes arrive |
| `HuffRoundTrip.DeriveEncoderTables` | app/src/main/cpp/libjpeg-version-9/libjpeg9/jchuff.c:1508-1536 | the scan's tables are derived if and only if all of them are acceptable |
| `HuffRoundTrip.DeriveDecoderTables` | app/src/main/cpp/libjpeg-version-9/libjpeg9/jdhuff.c:1310-1435 | tables that the encoder accepts are accepted by the decoder |
| `HuffRoundTrip.ScanRoundTrip` | app/src/main/cpp/libjpeg-version-9/libjpeg9/jdhuff.c:464-1303 | encoding a scan and decoding it gives back what was coded: for every scan, every restart interval, all acceptable tables that have the codes needed, and all ways to cut the input into pieces |
| `HuffSymbolCount.SymsOfPart` | app/src/main/cpp/libjpeg-version-9/libjpeg9/jchuff.c:915-1008 | a block takes at most 64 symbols |
| `HuffStatistics.TokensCounted` | app/src/main/cpp/libjpeg-version-9/libjpeg9/jchuff.c:1196-1225 | the symbols counted are those that the scan consists of |
| `HuffStatistics.OptimalTable` | app/src/main/cpp/libjpeg-version-9/libjpeg9/jchuff.c:1255-1389 | a table for the counts of a pass is one that both sides accept and that has a code for every symbol used; there is none if and only if a code would be too long |
| `HuffStatistics.MakeTables` | app/src/main/cpp/libjpeg-version-9/libjpeg9/jchuff.c:1396-1441 | each table that the scan uses is made once; fails if and only if one of them needs codes that are too long |
| `HuffStatistics.TablesAreGood` | app/src/main/cpp/libjpeg-version-9/libjpeg9/jchuff.c:160-246 | tables made from a statistics pass are accepted when the output pass derives its own from them |
| `HuffStatistics.FewTokensFit` | app/src/main/cpp/libjpeg-version-9/libjpeg9/jchuff.c:1332-1335 | a scan of fewer than 9227464 symbols needs no codes that are too long |
| `HuffStatistics.Optimize` | app/src/main/cpp/libjpeg-version-9/libjpeg9/jchuff.c:1396-1441 | tables are made unless one needs codes that are too long, and then the output pass never misses a code |
| `HuffStatistics.OptimizedRoundTrip` | app/src/main/cpp/libjpeg-version-9/libjpeg9/jchuff.c:1396-1441 | statistics pass, output pass and decoding give back what was coded; for up to 144179 blocks always |
| `Precision.FirstScan` | app/src/main/cpp/libjpeg-version-9/libjpeg9/jdarith.c:320-393 | a first AC scan brings an empty band to its precision, rounded toward zero, and touches nothing else |
| `Precision.RefinementScan` | app/src/main/cpp/libjpeg-version-9/libjpeg9/jdarith.c:433-501 | an AC refinement brings a band from the next coarser precision to its own |
| `Precision.DcFirstScan` | app/src/main/cpp/libjpeg-version-9/libjpeg9/jdarith.c:241-312 | a first DC scan gives the value rounded down |
| `Precision.DcRefinementScan` | app/src/main/cpp/libjpeg-version-9/libjpeg9/jdarith.c:400-426 | a DC refinement gives one bit more |
| `Precision.SequentialScan` | app/src/main/cpp/libjpeg-version-9/libjpeg9/jdarith.c:508-633 | a sequential scan gives the coefficients themselves |
| `Precision.RoundedDown` | app/src/main/cpp/libjpeg-version-9/libjpeg9/jcarith.c:388-391 | the DC precision: the multiple of 2^Al at or below the coefficient |
| `Precision.TowardZero` | app/src/main/cpp/libjpeg-version-9/libjpeg9/jcarith.c:484-491 | the AC precision: the multiple of 2^Al next to the coefficient on the side of zero |
| `ScanScript.CheckProgressive` | app/src/main/cpp/libjpeg-version-9/libjpeg9/jcmaster.c:414-455 | accepts a scan if and only if its ranges are right and each of its components is at the precision that it needs, DC before AC; the table of last bit positions is kept up to date |
| `ScanScript.CheckSequential` | app/src/main/cpp/libjpeg-version-9/libjpeg9/jcmaster.c:456-467 | accepts a scan if and only if it has whole blocks at full precision of components not sent before |
| `ScanScript.VerdictIsExact` | app/src/main/cpp/libjpeg-version-9/libjpeg9/jcmaster.c:396-468 | a scan is accepted after others if and only if it may follow them |
| `ScanScript.ValidateScript` | app/src/main/cpp/libjpeg-version-9/libjpeg9/jcmaster.c:357-489 | accepts exactly the legal scripts, tells sequential from progressive ones, and otherwise reports the first scan that is wrong, or that data is missing |
| `ScanScript.ReduceScript` | app/src/main/cpp/libjpeg-version-9/libjpeg9/jcmaster.c:492-522 | in place: scans above the limit are dropped, the bands of the others clipped, and their order kept |
| `ScanScript.ReducedAl` | app/src/main/cpp/libjpeg-version-9/libjpeg9/jcmaster.c:492-522 | coefficients up to the limit get the same precision from the reduced script |
| `ScanScript.ReducedOrdered` | app/src/main/cpp/libjpeg-version-9/libjpeg9/jcmaster.c:492-522 | a legal script stays legal when reduced |
| `SimpleScripts.FillDcScans` | app/src/main/cpp/libjpeg-version-9/libjpeg9/jcparam.c:535-555 | one interleaved DC scan, or one for each component when there are too many |
| `SimpleScripts.SimpleProgression` | app/src/main/cpp/libjpeg-version-9/libjpeg9/jcparam.c:563-635 | the script fills exactly the space that was set aside for it |
| `SimpleScripts.SimpleIsLegal` | app/src/main/cpp/libjpeg-version-9/libjpeg9/jcparam.c:563-635 | for any number of components the script is legal and progressive, and brings every coefficient to full precision |
| `SimpleScripts.DcScriptIsLegal` | app/src/main/cpp/libjpeg-version-9/libjpeg9/jcmaster.c:396-455 | a script of one scan for the DC of n components at some Al and its refinements down to 0 is legal exactly if n is from 1 to 4 and Al at most 10 |
| `Progression.ScanReaches` | app/src/main/cpp/libjpeg-version-9/libjpeg9/jcmaster.c:357-489 | a scan that is legal after others finds each block as it needs it, and brings its band to its precision; all other coefficients keep theirs |
| `Progression.ScansExist` | app/src/main/cpp/libjpeg-version-9/libjpeg9/jcmaster.c:357-489 | every scan that is legal is one for which an entropy coding routine has parameters |
| `Progression.FullPrecision` | app/src/main/cpp/libjpeg-version-9/libjpeg9/jcmaster.c:357-489 | a coefficient whose last scan had Al = 0 is exact |
| `Transmission.ArithTransmission` | app/src/main/cpp/libjpeg-version-9/libjpeg9/jcmaster.c:357-489 | after any legal sequence of scans through the arithmetic codec every real block is held at the precision of the last scan of each coefficient |
| `Transmission.HuffTransmission` | app/src/main/cpp/libjpeg-version-9/libjpeg9/jcmaster.c:357-489 | the same through the Huffman codec with tables made for each scan; it stops only at a scan that needs codes that are too long, and what the scans before it gave stays |
| `Transmission.ShownInFull` | app/src/main/cpp/libjpeg-version-9/libjpeg9/jcmaster.c:357-489 | when all last values of Al are 0 the blocks are the image's own |
| `Transmission.SimpleScriptShowsAll` | app/src/main/cpp/libjpeg-version-9/libjpeg9/jcparam.c:563-635 | the library's own progressive scripts lose nothing |
| `Transmission.ZeroedShowsNothing` | app/src/main/cpp/libjpeg-version-9/libjpeg9/jdcoefct.c:262-266 | zeroed arrays are the right start for any script |
| `Transmission.ArithImage` | app/src/main/cpp/libjpeg-version-9/libjpeg9/jcparam.c:563-635 | from zeroed arrays, the library's progressive script through the arithmetic codec ends with the image |
| `Transmission.HuffImage` | app/src/main/cpp/libjpeg-version-9/libjpeg9/jcparam.c:563-635 | the same through the Huffman codec; it stops if and only if some scan needs codes that are too long |
| `Transmission.ReducedScriptShows` | app/src/main/cpp/libjpeg-version-9/libjpeg9/jcmaster.c:492-522 | a reduced script shows the coefficients up to the limit as the whole script would |
| `McuLayout.SizesAgree` | app/src/main/cpp/libjpeg-version-9/libjpeg9/jcmaster.c:326-351 | the number of MCUs, from the image size, and the number of blocks, from the component size, agree although each is rounded up on its own |
| `McuLayout.FrameFits` | app/src/main/cpp/libjpeg-version-9/libjpeg9/jcmaster.c:219-352 | so every component ends in the last row and the last column of MCUs |
| `McuLayout.GroupsInLast` | app/src/main/cpp/libjpeg-version-9/libjpeg9/jdmainct.c:274-286 | the row groups of the last iMCU row, and the number of iMCU rows, depend on the image height alone although each component rounds its own height up |
| `CoefControllers.RightDummy` | app/src/main/cpp/libjpeg-version-9/libjpeg9/jccoefct.c:186-193 | a dummy block at the right edge has the DC value of the block before it, and its other 63 coefficients are 0 |
| `CoefControllers.BottomDummy` | app/src/main/cpp/libjpeg-version-9/libjpeg9/jccoefct.c:194-201 | a dummy block below the image has the DC value of the last block of the row above in its MCU, and its other 63 coefficients are 0 |
| `CoefControllers.CompressOne` | app/src/main/cpp/libjpeg-version-9/libjpeg9/jccoefct.c:143-222 | the MCU built from the DCT consists of the blocks, real and dummy, of its place in the scan |
| `CoefControllers.BlocksDelivered` | app/src/main/cpp/libjpeg-version-9/libjpeg9/jccoefct.c:143-222 | in an MCU a real block is the image's own; beside the image the DC value is that of the block before it in the MCU, below the image that of the last block of the row above in the MCU, and the other 63 coefficients are 0 |
| `CoefControllers.FirstPassRows` | app/src/main/cpp/libjpeg-version-9/libjpeg9/jccoefct.c:248-332 | the first pass fills the rows of an iMCU row in the buffer, dummy blocks and dummy rows included, and changes no others |
| `CoefControllers.OutputOne` | app/src/main/cpp/libjpeg-version-9/libjpeg9/jccoefct.c:345-400 | the MCU taken from the buffer is the same one |
| `CoefControllers.TranscodeOne` | app/src/main/cpp/libjpeg-version-9/libjpeg9/jctrans.c:274-348 | the MCU that transcoding makes up as it goes is the same one |
| `CoefControllers.CoefController.CompressData` | app/src/main/cpp/libjpeg-version-9/libjpeg9/jccoefct.c:143-222 | however often the entropy coder suspends, it gets the MCUs of the scan in order, each once |
| `CoefControllers.BuffersServeAll` | app/src/main/cpp/libjpeg-version-9/libjpeg9/jccoefct.c:248-332 | after the first pass the buffers serve every scan of the image |
| `CoefControllers.SameMcus` | app/src/main/cpp/libjpeg-version-9/libjpeg9/jctrans.c:274-348 | one-pass, buffered and transcoding controllers send the same MCUs |
| `CoefControllers.DeliveredBlocks` | app/src/main/cpp/libjpeg-version-9/libjpeg9/jccoefct.c:143-400 | what each of the three delivers as its nth MCU, coefficient by coefficient, the dummy blocks as above |
| `DecoefControllers.TryAgain` | app/src/main/cpp/libjpeg-version-9/libjpeg9/jdcoefct.c:245-293 | a block that holds zeros, or some of its coefficients from earlier tries, becomes what was coded, or is left so that the next try can make it that |
| `DecoefControllers.OnlyFromZeros` | app/src/main/cpp/libjpeg-version-9/libjpeg9/jdcoefct.c:262-266 | a block becomes what was coded if and only if it held zeros wherever the coded block has zero AC coefficients |
| `DecoefControllers.ConsumeController.DecodeMcu` | app/src/main/cpp/libjpeg-version-9/libjpeg9/jdcoefct.c:270-293 | a try at the MCU at hand, which stores some or all of its nonzero coefficients, keeps the invariant: blocks of earlier MCUs are what was coded, all others zero or partly what was coded |
| `DecoefControllers.ConsumeController.ConsumeData` | app/src/main/cpp/libjpeg-version-9/libjpeg9/jdcoefct.c:245-305 | from zeroed arrays, however often the entropy decoder suspends, and whatever part of the MCU at hand it stores before that, each MCU is decoded into its places; other components are left alone |
| `DecoefControllers.ConsumeController.RowsAreStored` | app/src/main/cpp/libjpeg-version-9/libjpeg9/jdcoefct.c:245-305 | the real blocks of all iMCU rows read so far are in the arrays |
| `DecoefControllers.OnePassController.DecompressOnepass` | app/src/main/cpp/libjpeg-version-9/libjpeg9/jdcoefct.c:147-222 | when an iMCU row is done the output shows the transform of every real block of the components needed, whatever tries were given up on the way: the buffer is zeroed for each, or never holds AC coefficients |
| `DecoefControllers.DecompressData` | app/src/main/cpp/libjpeg-version-9/libjpeg9/jdcoefct.c:316-376 | reads until the input is ahead, then shows every real block of the iMCU row |
| `DecoefControllers.WhatIsShown` | app/src/main/cpp/libjpeg-version-9/libjpeg9/jdcoefct.c:147-376 | showing an iMCU row puts the transform of each of its real blocks in its place |
| `DecoefControllers.DeliveredIsCoded` | app/src/main/cpp/libjpeg-version-9/libjpeg9/jccoefct.c:143-400 | what a controller of the compressor delivers is a scan that those of the decompressor can read |
| `DecoefControllers.BlocksArrive` | app/src/main/cpp/libjpeg-version-9/libjpeg9/jdcoefct.c:245-305 | every real block gets from the compressor's controller to the decompressor's arrays |
| `DecoefControllers.SameShown` | app/src/main/cpp/libjpeg-version-9/libjpeg9/jdcoefct.c:147-376 | one-pass and buffered output show the same |
| `ScanLayout.NeverTwice` | app/src/main/cpp/libjpeg-version-9/libjpeg9/jccoefct.c:143-222 | no block, real or dummy, is in two MCUs or twice in one |
| `ScanLayout.AlwaysVisited` | app/src/main/cpp/libjpeg-version-9/libjpeg9/jccoefct.c:143-222 | every real block of the scan's components is in some MCU |
| `ScanLayout.ControllersLayout` | app/src/main/cpp/libjpeg-version-9/libjpeg9/jccoefct.c:72-222 | so the controllers' order of blocks is one for which whole scripts are transmitted as above |
| `ContextRing.PrepController.CreateContextBuffer` | app/src/main/cpp/libjpeg-version-9/libjpeg9/jcprepct.c:268-308 | the five groups of pointers wrap around the three real ones |
| `ContextRing.PrepController.ExpandBottomEdge` | app/src/main/cpp/libjpeg-version-9/libjpeg9/jcprepct.c:105-115 | the last row is repeated below itself |
| `ContextRing.PrepController.PreProcess` | app/src/main/cpp/libjpeg-version-9/libjpeg9/jcprepct.c:196-261 | for every split of the input, each downsampling step gets the right row group with the one above and the one below it, the first and the last row repeated at the edges; the loop ends, and all room in the output is used when there is input |
| `FunnyPointers.MainController.MakeFunnyPointers` | app/src/main/cpp/libjpeg-version-9/libjpeg9/jdmainct.c:195-235 | the two lists start out as the layouts for the top of the image |
| `FunnyPointers.MainController.SetWraparoundPointers` | app/src/main/cpp/libjpeg-version-9/libjpeg9/jdmainct.c:238-263 | after the top the lists are the layouts for the middle of the image |
| `FunnyPointers.MainController.SetBottomPointers` | app/src/main/cpp/libjpeg-version-9/libjpeg9/jdmainct.c:266-300 | below the image the pointers repeat its last row, and the number of row groups left is the rounded-up quotient |
| `FunnyPointers.MainController.ProcessData` | app/src/main/cpp/libjpeg-version-9/libjpeg9/jdmainct.c:385-448 | every call, with any amount of output taken, keeps the invariant: what was handed out so far is the row groups from the first on, each with its context; it makes progress when it can |
| `FunnyPointers.MainController.AllHandedOut` | app/src/main/cpp/libjpeg-version-9/libjpeg9/jdmainct.c:385-448 | at the end all row groups were handed out, once and in order |
| `FunnyPointers.MainController.TrueContext` | app/src/main/cpp/libjpeg-version-9/libjpeg9/jdmainct.c:385-448 | the rows above and below each group are its neighbours in the image, the first and last repeated, if the last iMCU row is the only one or holds at least a row group |
| `FunnyPointers.MainController.PaddingShown` | app/src/main/cpp/libjpeg-version-9/libjpeg9/jdmainct.c:266-300 | otherwise the group before the last iMCU row is shown a padding row below the image, and this is not the repeated last row unless the two are alike |
| `FunnyPointers.MainController.PaddingExample` | app/src/main/cpp/libjpeg-version-9/libjpeg9/jdmainct.c:266-300 | an image of 17 rows, in iMCU rows of eight groups of two rows, is such a case |
| `FunnyPointers.SameGroupsLeft` | app/src/main/cpp/libjpeg-version-9/libjpeg9/jdmainct.c:274-292 | the number of row groups left, computed for the first component only, is the same for all components, and so is the number of iMCU rows |
| `StableMerge.MergeElements` | app/src/main/cpp/libUvc_Support/utlist.h:184-202 | merging loses and invents no elements |
| `StableMerge.MergeSorts` | app/src/main/cpp/libUvc_Support/utlist.h:184-202 | merging sorted runs gives a sorted run |
| `StableMerge.MergeKeepsOrder` | app/src/main/cpp/libUvc_Support/utlist.h:184-202 | merging keeps the order of equal elements, those of the first run first |
| `StableMerge.PassDoubles` | app/src/main/cpp/libUvc_Support/utlist.h:168-209 | a pass turns stably sorted runs into ones of double length |
| `StableMerge.OrderKept` | app/src/main/cpp/libUvc_Support/utlist.h:157-212 | in a stably sorted list an element comes before every later one of the old list that it may come before, equal ones included |
| `UtListSort.Take` | app/src/main/cpp/libUvc_Support/utlist.h:194-200 | the next node goes to the end of the new list, linked both ways |
| `UtListSort.SplitRun` | app/src/main/cpp/libUvc_Support/utlist.h:176-182 | finds where a run ends, or the list does |
| `UtListSort.MergeRuns` | app/src/main/cpp/libUvc_Support/utlist.h:183-201 | relinks the nodes of two runs into their merge |
| `UtListSort.MergePass` | app/src/main/cpp/libUvc_Support/utlist.h:169-208 | a pass over the list is the pass on sequences, over the same nodes; its count of merges tells whether there was more than one |
| `UtListSort.Sort` | app/src/main/cpp/libUvc_Support/utlist.h:157-212 | for every total preorder the sort ends with the same nodes in stably sorted order, linked both ways, the first pointing back to the last |
| `FrameOwnership.StepKeeps` | app/src/main/cpp/libUvc_Support/UVC_Camera_Saki/UVCPreview.cpp:114-1231 | every step of the USB callback, the preview thread, which may also give up early, the capture thread and the controlling thread keeps the invariant that counts each frame ever allocated once |
| `FrameOwnership.RunKeeps` | app/src/main/cpp/libUvc_Support/UVC_Camera_Saki/UVCPreview.cpp:114-1231 | so every interleaving does |
| `FrameOwnership.FramesAreSafe` | app/src/main/cpp/libUvc_Support/UVC_Camera_Saki/UVCPreview.cpp:114-1231 | in every state of every run no frame has two owners, no freed frame has one, the pool holds at most six and the queue at most four, and the queue is first in, first out |
| `FrameOwnership.FrameAccepted` | app/src/main/cpp/libUvc_Support/UVC_Camera_Saki/UVCPreview.cpp:519-531 | in any run a copied frame becomes the last of the queue if the preview runs and there are not four frames waiting already; otherwise, and only then, it is left to be recycled |
| `FrameOwnership.OldestTaken` | app/src/main/cpp/libUvc_Support/UVC_Camera_Saki/UVCPreview.cpp:533-546 | the preview takes the frame that came first of those that wait |
| `FrameOwnership.NewestCaptured` | app/src/main/cpp/libUvc_Support/UVC_Camera_Saki/UVCPreview.cpp:1019-1031 | the capture slot gets the frame passed on, after the one that was in it was recycled |
| `FrameOwnership.FreedOnlyWhenFull` | app/src/main/cpp/libUvc_Support/UVC_Camera_Saki/UVCPreview.cpp:131-141 | in any run a frame is freed only if six are in the pool, or when the pool is cleared |
| `FrameOwnership.PoolIsStack` | app/src/main/cpp/libUvc_Support/UVC_Camera_Saki/UVCPreview.cpp:114-141 | frames are put on top of the pool while it has fewer than six and taken from the top; a new one is allocated only when the pool is empty |
| `FrameOwnership.QueueFills` | app/src/main/cpp/libUvc_Support/UVC_Camera_Saki/UVCPreview.cpp:519-531 | there is a run to four frames in the queue |
| `FrameOwnership.PoolFills` | app/src/main/cpp/libUvc_Support/UVC_Camera_Saki/UVCPreview.cpp:131-141 | there is a run to six frames in the pool |
| `FrameOwnership.TwoLeaks` | app/src/main/cpp/libUvc_Support/UVC_Camera_Saki/UVCPreview.cpp:703-797 | in every state of every run, a frame that was allocated and not freed has no owner if and only if some earlier step could not decode it, or was to capture it after the preview was stopped |
| `FrameOwnership.DecodingLeaks` | app/src/main/cpp/libUvc_Support/UVC_Camera_Saki/UVCPreview.cpp:746-760 | there is a run that loses a frame because it cannot be decoded |
| `FrameOwnership.CapturingLeaks` | app/src/main/cpp/libUvc_Support/UVC_Camera_Saki/UVCPreview.cpp:1019-1031 | there is a run that loses a frame because the preview was stopped before the frame was captured |

## Left out

- Integer widths: registers, counters and sizes are mathematical integers. Where the C code relies on the
  width (bytes, 16-bit coefficients, the 24-bit put buffer, byte-sized counts) the bounds are proved or the
  truncation is written out. Bit operations are written as arithmetic.
- Errors and warnings: they end in a result that says so, or set a `failed` field. `ct = -1` in the arithmetic
  decoder is `failed`; what a decoder makes of the rest of a corrupt scan is not modelled for that codec.
- ArithDecoder.Decoder.ReadRestartMarker, ArithScanDecoder.ScanDecoder.CheckRestart,
  BitReader.Reader.ReadRestartMarker, HuffScanDecoder.ScanDecoder.CheckRestart: no restart resynchronization.
  A wrong or missing restart marker ends decoding; `jpeg_resync_to_restart` and the skipping of garbage before
  a marker while the source is suspended are not part of this model.
- BitWriter.Writer.EmitBits, BitWriter.Writer.Flush, BitWriter.Writer.EmitMarker,
  HuffScanEncoder.ScanEncoder.EncodeOneBlock, HuffScanEncoder.ScanEncoder.EncodeBlock: no output suspension.
  The destination always has room (`emit_bits_s` and `dump_buffer_s` never return FALSE). The controllers,
  however, are proved for an entropy coder that suspends at any MCU.
- The end of a scan: the byte sources of the round trips have an EOI marker after the last segment.
- ArithRoundTrip.DecodeScan, ArithRoundTrip.ScanRoundTrip, Transmission.ArithTransmission,
  Transmission.ArithImage: they require DC differences that the decoder accepts, which is the exact condition
  stated by ArithScanDecoder.ScanDecoder.DecodeMcu.
- HuffOptimal.GenOptimalTable: requires at least one counted symbol, fewer than 255, and a total below 10^9,
  the value that the search starts from. The statistics of a scan meet the first two always.
- HuffOptimal.AssignLengths, HuffOptimal.CountLengths, HuffStatistics.OptimalTable, HuffStatistics.MakeTables,
  HuffStatistics.Optimize, HuffStatistics.OptimizedRoundTrip, Transmission.HuffTransmission,
  Transmission.HuffImage: the same limits, which the search for the smallest counts and the byte-sized counts
  of lengths rely on.
- HuffDecoding.OrderAt: orders for reduced block sizes have 63 in all places after the last coefficient, the
  model has the rest of a permutation there; only the result for corrupt data can differ.
- HuffRoundTrip.ScanRoundTrip: sequential scans with some coefficients unwanted (scaled-down decoding) get
  those that are wanted; the others may or may not be stored, as in the source.
- ScanScript.ValidateScript: values of `comps_in_scan` and `component_index` are those of a list; negative
  ones are not modelled.
- UtListSort.Sort: `DL_SORT`. `LL_SORT` is the same without the `prev` links; `CDL_SORT` is left out. The
  overflow of `insize` for lists of more than 2^30 nodes is not modelled.
- FunnyPointers.MainController.ProcessData, ContextRing.PrepController.PreProcess: one component; the loops
  over components do the same to each on its own arrays.
- CoefControllers.CoefController.CompressData: DCT and quantization are a function of the block's place; the
  limit on the blocks of an MCU is an error exit that is left out.
- DecoefControllers.ConsumeController.ConsumeData: the first scan of its components; what later scans of a
  progressive file make of what the arrays hold is the subject of Transmission, and that tries at their MCUs
  can be repeated that of HuffScanDecoder.
- DecoefControllers.DecompressData: one scan; with several, the input side is that of the scan at hand, and
  block smoothing is left out. The inverse DCT is a function of the block.
- FrameOwnership.FramesAreSafe: safety only. Waiting on conditions, lost wakeups and the joining of threads
  are left out, so is `init_pool`, which nothing calls, and what the frames contain. There is one preview
  thread; the source starts two when it is given a window while the automatic search for parameters is on.
  Conversions and Java callbacks are steps that may fail.
- The five MCU routines of a codec share helper methods in the model where the C code repeats itself; the
  fields of coder and scan are split over two classes.
- Values of Al above 13 do not occur in scans.
- DCT and inverse DCT, color conversion, sampling filters, quantization, marker reading and writing, memory
  management, the application interface and the programs around it, JNI, USB and window handling.
