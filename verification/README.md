# Verified model of the compression half of libjpeg-turbo 1.5.0

This project models the JPEG compressor bundled with the camera library and proves what its parts promise
each other: that what is coded can be decoded again, that the fast forms compute what the simple ones do, that
buffers which alias rows look like an image with clamped edges, that suspension is invisible, and that scan
scripts and passes do what the file format requires. The decoders come from the same library or are read off
ITU-T T.81, sections B.1.1.5, D.2, F.2.2 and G.2.

Code that changes state is modelled as methods on classes and arrays with the source's fields and loops, each
proved against a specification; the specifications are functions. What such a function stands for is stated apart
from it, in the terms and with the figures of the file format, by lemmas beside it: which row and sense a
statistics bin moves to, which symbols and bits a block is coded with, which component and place in the scan each
block has, which events surround a scan. Other lemmas say what it is good for. `dafny verify dfyconfig.toml` checks
everything.

## Main results

1. **Arithmetic coding** (`IntervalCoding`, `ArithEncoding`, `ArithDecoding`). After every decision the emitted
   bytes, withheld zeros, buffer byte, stacked 0xFF bytes and register C together equal the low end of an
   exact interval coder. Carries are safe, termination drops only zero bytes, and the finite-register decoder
   returns every sequence of decisions. The bins move through the rows of the probability table as the standard
   has it: a more probable symbol never changes which one that is.
2. **Huffman tables** (`HuffmanTheory` to `HuffmanDerive`). The merge loop finds code lengths of minimal cost
   among all that satisfy Kraft, with the pseudo-symbol among the deepest; length limiting is sound and shortens
   as the standard prescribes; the
   canonical derivation accepts a table if and only if it is usable and yields a prefix code without the
   all-ones word. A code over 32 bits needs at least 9227465 counts, the 35th Fibonacci number.
3. **Bit packing** (`BitPacking`, `MacroPacking`, `ProgressivePacking`, `FlushOverrun`). Which bytes both packers
   write for any fields. The routine's are always the padded and stuffed bit string; the 64-bit macros' are if
   and only if at most 57 bits are pending, or the pending bits beyond the last 57 are zeros, and how many are
   pending is a function of the sizes of the fields.
4. **Sequential coding** (`SequentialBlock` to `SequentialOptimize`, `RestartIntervals`). Round trip from blocks
   to bytes and back over whole scans with restart intervals, under any pattern of refusals by the
   destination; the bytes are right if and only if no flush shifts out a one; gathered statistics equal the
   emitted symbols, and are refused exactly for coefficients out of range; optimized tables cost least and always
   serve the scan.
5. **Progressive AC coding** (`EobRuns` to `ProgressiveScan`, `ScriptDecoding`). Round trip of first and
   refinement scans with end-of-band runs, buffered correction bits and restarts; the run and buffer bounds
   that the source relies on; statistics equal output. Over any valid script the AC scans of a component add
   up to every coefficient at the last bit position sent, and over the generated ones to the exact AC coefficients.
6. **Reciprocal quantizer** (`ReciprocalDivision`, `Quantizer`). Multiply-and-shift equals rounded division for
   every 16-bit divisor, with 16-bit and 32-bit elements, without overflow.
7. **Controllers** (`ContextRows`, `CoefficientGeometry`, `ScanCoverage`, `CoefficientController`,
   `EntropyEncoders`, `ScanPipeline`, `MainController`). The ring of aliased rows equals the clamped image; two passes
   hand over the same MCUs as one, and these hold every block of every component exactly once. The MCUs that the controller puts together in its buffer reach the destination as the bytes
   of the scan, whenever space runs out, in a single pass as well as with a statistics pass before it; scanlines
   are counted right around suspensions.
8. **Scripts and passes** (`ScanScripts`, `SimpleProgression`, `PassControl`). The validator accepts exactly the
   valid scripts, the generated scripts are valid and complete, and the pass controller outputs each scan once, with
   tables made from its own statistics wherever the scan has symbols.

Suspension is shown from the destination upwards. `SequentialPasses` shows that an MCU that does not fit leaves the
encoder and the bytes untouched; `CoefficientController`, which calls the encoder with each MCU it has built, shows
that any pattern of such refusals hands over each MCU once and in order; `ScanPipeline` concludes what bytes
arrive; `MainController` shows that the application's scanline count is right throughout.

Three places where a reader of the source may be surprised. Each is a condition that is stated exactly, with a
run that does not meet it:

- the 64-bit macros rely on an unstated bound before `flush_bits` (`SequentialFlushes.EmittedIsScan`;
  `FlushOverrun.FlushLosesBits`);
- the eight-bit counts of code lengths cannot hold 256 codes of one length, which cannot happen with the symbols
  of coefficients in range (`HuffmanGenerate.GenOptimalTable`, `HuffmanWrap.WrapsWhenBalanced`,
  `SequentialOptimize.SymbolsInUse`; `HuffmanWrap.EqualCountsWrap`);
- when an application calls `jpeg_write_scanlines` with no lines after a suspension, the one withheld line is
  reported although none was passed, exactly if there is room for all rows that are full
  (`MainController.Compressor.WriteScanlines`; `MainController.WithheldLine`).

## Model

| member | source | states |
|---|---|---|
| ArithTable.UnpackRow | libuvccamera/src/main/jni/libjpeg-turbo-1.5.0/jcarith.c:232-235 | the shifts and masks that take a packed table word apart recover Qe, both next indices and the switch flag of the row it was packed from |
| ArithTable.SenseIsBit7 | libuvccamera/src/main/jni/libjpeg-turbo-1.5.0/jcarith.c:239-239 | the more probable symbol is bit 7 of the bin |
| ArithTable.QeIsOfRow | libuvccamera/src/main/jni/libjpeg-turbo-1.5.0/jcarith.c:232-235 | Qe is the first column of the row that the low seven bits name |
| ArithTable.MpsKeepsSense | libuvccamera/src/main/jni/libjpeg-turbo-1.5.0/jcarith.c:261-261 | after the more probable symbol the sense is the same, and the index is the next one for that symbol in the row |
| ArithTable.LpsMayChangeSense | libuvccamera/src/main/jni/libjpeg-turbo-1.5.0/jcarith.c:249-249 | after the less probable symbol the sense is the other one exactly if the switch of the row is 1, and the index is the next one for that symbol in the row |
| ArithTable.EstimatesFollow | libuvccamera/src/main/jni/libjpeg-turbo-1.5.0/jaricom.c:34-156 | in every row the next index for the more probable symbol has no larger Qe, that for the less probable one no smaller Qe unless the symbols change places, and they change places only where Qe is above 0x5522 |
| IntervalCoding.CutIsDecodable | libuvccamera/src/main/jni/libjpeg-turbo-1.5.0/jdarith.c:159-182 | a stream inside the part of the interval that coding a bit leaves was inside the interval before, and the comparison with the cut, with conditional exchange, yields that bit |
| IntervalCoding.PartsTile | libuvccamera/src/main/jni/libjpeg-turbo-1.5.0/jcarith.c:237-260 | the parts of the two symbols are the lower A - Qe and the upper Qe of the interval, with Qe taken from the row, and the symbol named by bit 7 has the larger one |
| IntervalCoding.BinsFollow | libuvccamera/src/main/jni/libjpeg-turbo-1.5.0/jcarith.c:249-261 | a decision changes no other bin, and its own only if its part has to be renormalized: a more probable symbol then moves the bin to its next row and never changes the sense, a less probable one moves it to its next row and changes the sense exactly if the row says so |
| IntervalCoding.RenormDoubles | libuvccamera/src/main/jni/libjpeg-turbo-1.5.0/jcarith.c:264-313 | renormalization shifts low end and width left alike, until the width is from 0x8000 to 0x10000 |
| IntervalCoding.IntervalsNest | libuvccamera/src/main/jni/libjpeg-turbo-1.5.0/jcarith.c:237-264 | over a whole run, a stream inside the final interval is inside the interval after every prefix of the decisions |
| IntervalCoding.DecodingInvertsCoding | libuvccamera/src/main/jni/libjpeg-turbo-1.5.0/jcarith.c:221-314 | for every sequence of (bin, bit) decisions and every stream inside the final exact interval, the interval decoder with the same adaptive bins returns exactly those bits and ends in the same interval and statistics |
| IntervalCoding.InAnywhere | libuvccamera/src/main/jni/libjpeg-turbo-1.5.0/jcarith.c:143-148 | whether a stream lies in an interval does not depend on how many zero-padded bytes are looked at |
| IntervalCoding.InTrailingZeros | libuvccamera/src/main/jni/libjpeg-turbo-1.5.0/jcarith.c:182-195 | appending or discarding trailing zero bytes does not move a stream in or out of an interval |
| ArithEncoding.RegistersStart | libuvccamera/src/main/jni/libjpeg-turbo-1.5.0/jcarith.c:893-900 | the initial registers stand for the unit interval |
| ArithEncoding.RegistersShift | libuvccamera/src/main/jni/libjpeg-turbo-1.5.0/jcarith.c:264-268 | shifting a and c once keeps the registers representing the doubled interval |
| ArithEncoding.RegistersByte | libuvccamera/src/main/jni/libjpeg-turbo-1.5.0/jcarith.c:268-311 | moving c >> 19 behind the pending bytes, with its carry, keeps the value that bytes and register stand for |
| ArithEncoding.RegistersCarry | libuvccamera/src/main/jni/libjpeg-turbo-1.5.0/jcarith.c:270-286 | at byte time c >> 19 is at most 0x11F, and cannot carry when all bytes so far are 0xFF, so a carry is at most one and always finds a byte to go into |
| ArithEncoding.RegistersCut | libuvccamera/src/main/jni/libjpeg-turbo-1.5.0/jcarith.c:237-262 | coding a decision, with conditional exchange, moves a and c as the exact interval coder moves its low end and width |
| ArithEncoding.RegistersFinal | libuvccamera/src/main/jni/libjpeg-turbo-1.5.0/jcarith.c:143-151 | the final c, shifted into place, fits 28 bits, ends in 11 zeros and overflows only if a byte can take the carry |
| ArithEncoding.FinalIsRound | libuvccamera/src/main/jni/libjpeg-turbo-1.5.0/jcarith.c:143-148 | the number that is sent is the multiple of 0x10000 from c up to c + a - 1 if there is one, which is then the only one |
| ArithEncoding.FinalInside | libuvccamera/src/main/jni/libjpeg-turbo-1.5.0/jcarith.c:141-195 | the bytes that are left at the end spell a number inside the final interval |
| ByteStreams.CarryRipples | libuvccamera/src/main/jni/libjpeg-turbo-1.5.0/jcarith.c:271-282 | adding one to a byte followed by stacked 0xFF bytes increments that byte and turns the stack into zeros |
| ByteStreams.EntropyWasStuffed | libuvccamera/src/main/jni/libjpeg-turbo-1.5.0/jdarith.c:120-140 | whatever is read as entropy-coded data up to a marker is exactly what was stuffed there |
| ArithEncoding.ArithEncoder.constructor | libuvccamera/src/main/jni/libjpeg-turbo-1.5.0/jcarith.c:893-900 | a new encoder stands for the empty sequence of decisions over the given statistics bins |
| ArithEncoding.ArithEncoder.Start | libuvccamera/src/main/jni/libjpeg-turbo-1.5.0/jcarith.c:322-360 | starting a pass or restart interval resets the registers to an empty segment behind the bytes already written |
| ArithEncoding.ArithEncoder.EmitByte | libuvccamera/src/main/jni/libjpeg-turbo-1.5.0/jcarith.c:118-128 | one byte is appended to the destination |
| ArithEncoding.ArithEncoder.EmitStuffed | libuvccamera/src/main/jni/libjpeg-turbo-1.5.0/jcarith.c:277-279 | a data byte is appended, followed by zero if it is 0xFF, so that the output stays the stuffed form of the data |
| ArithEncoding.ArithEncoder.EmitZeros | libuvccamera/src/main/jni/libjpeg-turbo-1.5.0/jcarith.c:294-296 | the zc withheld zero bytes are appended and zc becomes zero |
| ArithEncoding.ArithEncoder.EmitStacked | libuvccamera/src/main/jni/libjpeg-turbo-1.5.0/jcarith.c:303-306 | the sc stacked 0xFF bytes are appended, each stuffed, and sc becomes zero |
| ArithEncoding.ArithEncoder.Carry | libuvccamera/src/main/jni/libjpeg-turbo-1.5.0/jcarith.c:272-282 | on overflow, sent bytes and withheld zeros together equal the pending number plus one |
| ArithEncoding.ArithEncoder.Release | libuvccamera/src/main/jni/libjpeg-turbo-1.5.0/jcarith.c:290-307 | without overflow, everything pending becomes final, trailing zeros staying withheld |
| ArithEncoding.ArithEncoder.ByteOut | libuvccamera/src/main/jni/libjpeg-turbo-1.5.0/jcarith.c:268-312 | for every c >> 19 up to 0x11F, the pending bytes become old value * 256 + byte including the carry, exactly one byte longer, and the buffer never holds 0xFF |
| ArithEncoding.ArithEncoder.Shift | libuvccamera/src/main/jni/libjpeg-turbo-1.5.0/jcarith.c:265-312 | one renormalization round doubles the represented interval; 0 < ct always |
| ArithEncoding.ArithEncoder.Renormalize | libuvccamera/src/main/jni/libjpeg-turbo-1.5.0/jcarith.c:264-313 | renormalization ends with a >= 0x8000 and the registers representing the renormalized exact interval |
| ArithEncoding.ArithEncoder.CodeDecision | libuvccamera/src/main/jni/libjpeg-turbo-1.5.0/jcarith.c:229-313 | the registers, pending bytes and statistics represent the exact model after the decision, given they did before |
| ArithEncoding.ArithEncoder.Encode | libuvccamera/src/main/jni/libjpeg-turbo-1.5.0/jcarith.c:221-314 | for every bin and bit: emitted bytes, withheld zeros, buffer, stacked bytes and c together equal the low end of the exact interval coder for all decisions so far, with 0x8000 <= a <= 0x10000 |
| ArithEncoding.ArithEncoder.Finish | libuvccamera/src/main/jni/libjpeg-turbo-1.5.0/jcarith.c:135-196 | the finished segment is the stuffed form of data without trailing zero byte, the data lie inside the final interval, and decoding them gives back every decision |
| ArithEncoding.ArithEncoder.FinalOutput | libuvccamera/src/main/jni/libjpeg-turbo-1.5.0/jcarith.c:182-195 | the last two bytes are written except for trailing zeros, which are all that is dropped |
| ArithEncoding.EncodeSegment | libuvccamera/src/main/jni/libjpeg-turbo-1.5.0/jcarith.c:135-314 | a whole segment, for any decisions and initial statistics: the bytes behind what was there before, unstuffed, have no zero at the end, lie in the final interval and decode to exactly those decisions |
| ArithDecoding.TracksCut | libuvccamera/src/main/jni/libjpeg-turbo-1.5.0/jdarith.c:159-182 | comparing the C register with the shifted cut point is comparing the exact stream with the cut, and subtracting it keeps the register tracking |
| ArithDecoding.TracksDoubled | libuvccamera/src/main/jni/libjpeg-turbo-1.5.0/jdarith.c:117-149 | one renormalization step, with or without a new byte, keeps the register tracking the doubled interval |
| ArithDecoding.DecodedOutcome | libuvccamera/src/main/jni/libjpeg-turbo-1.5.0/jdarith.c:159-184 | the four outcomes of the conditional exchange in the decoder are those of the encoder: same bit, width and next estimation state |
| ArithDecoding.ArithDecoder.constructor | libuvccamera/src/main/jni/libjpeg-turbo-1.5.0/jdarith.c:108-149 | a decoder at the head of a stuffed segment has answered nothing yet |
| ArithDecoding.ArithDecoder.GetByte | libuvccamera/src/main/jni/libjpeg-turbo-1.5.0/jdarith.c:67-78 | reads one input byte |
| ArithDecoding.ArithDecoder.NextByte | libuvccamera/src/main/jni/libjpeg-turbo-1.5.0/jdarith.c:120-140 | delivers the next data byte, skipping stuffed zeros and swallowing marker prefixes, and zeros for ever once a marker is met |
| ArithDecoding.ArithDecoder.Shift | libuvccamera/src/main/jni/libjpeg-turbo-1.5.0/jdarith.c:117-149 | one round of renormalization and input keeps the register leading to the goal interval, including the two initial bytes |
| ArithDecoding.ArithDecoder.Renormalize | libuvccamera/src/main/jni/libjpeg-turbo-1.5.0/jdarith.c:116-149 | renormalization and input end with a >= 0x8000 and the register tracking the exact interval |
| ArithDecoding.ArithDecoder.DecodeBit | libuvccamera/src/main/jni/libjpeg-turbo-1.5.0/jdarith.c:108-185 | the register decoder answers every question as the exact interval decoder does, and adapts the bin alike |
| ArithDecoding.DecodeSegment | libuvccamera/src/main/jni/libjpeg-turbo-1.5.0/jdarith.c:108-185 | the register decoder returns for the bytes of a segment and its marker what the exact interval decoder reads from the unstuffed data |
| ArithDecoding.MarkerEndsData | libuvccamera/src/main/jni/libjpeg-turbo-1.5.0/jdarith.c:120-140 | a marker, fill bytes before its code included, separates the data of a segment from what follows |
| ArithDecoding.RoundTrip | libuvccamera/src/main/jni/libjpeg-turbo-1.5.0/jcarith.c:135-314 | for every sequence of decisions the bytes behind what was written before, followed by any marker, decode to exactly those bits, and the finite-register decoder run on them returns those bits |
| HuffmanTheory.Exchange | libuvccamera/src/main/jni/libjpeg-turbo-1.5.0/jchuff.c:910-958 | exchanging the lengths of two symbols so that the less frequent one is longer keeps Kraft and does not raise the cost, for any assignment |
| HuffmanTheory.BringDown | libuvccamera/src/main/jni/libjpeg-turbo-1.5.0/jchuff.c:910-958 | any assignment with two longest codes can be rearranged at no cost so that the two least frequent symbols are the longest |
| HuffmanTheory.MergePair | libuvccamera/src/main/jni/libjpeg-turbo-1.5.0/jchuff.c:939-941 | with the two merged symbols longest, merging them gives an assignment for the merged frequencies that costs exactly their sum less |
| HuffmanTheory.MergeKeepsOptimum | libuvccamera/src/main/jni/libjpeg-turbo-1.5.0/jchuff.c:939-957 | for any assignment satisfying Kraft there is one for the merged frequencies that costs at most that minus the merged weight |
| HuffmanForest.MergeValid | libuvccamera/src/main/jni/libjpeg-turbo-1.5.0/jchuff.c:939-957 | a merge of the two least frequent trees keeps root weights, complete subtrees and the lower bound on the cost of all assignments |
| HuffmanForest.LastTree | libuvccamera/src/main/jni/libjpeg-turbo-1.5.0/jchuff.c:935-937 | when one tree is left its depths have Kraft sum exactly 1, and no assignment satisfying Kraft costs less |
| HuffmanMerge.MergeDeepest | libuvccamera/src/main/jni/libjpeg-turbo-1.5.0/jchuff.c:913-941 | the pseudo-symbol stays among the deepest symbols through every merge, because of how ties are broken |
| HuffmanMerge.FindSmallest | libuvccamera/src/main/jni/libjpeg-turbo-1.5.0/jchuff.c:913-933 | the least nonzero frequency other than the skipped one, of equals the larger symbol; -1 exactly when there is none |
| HuffmanMerge.Deepen | libuvccamera/src/main/jni/libjpeg-turbo-1.5.0/jchuff.c:943-956 | following others[] increments the code size of every symbol of one tree exactly once and no other |
| HuffmanMerge.MergeOnce | libuvccamera/src/main/jni/libjpeg-turbo-1.5.0/jchuff.c:939-957 | the arrays after a merge stand for the merged forest; the chains stay disjoint and hold exactly the symbols of their trees |
| HuffmanMerge.MergeAll | libuvccamera/src/main/jni/libjpeg-turbo-1.5.0/jchuff.c:899-958 | the loop terminates; codesize[] has Kraft sum 1 and minimal sum of freq*codesize over all assignments satisfying Kraft, of any lengths; no code is longer than that of symbol 256; Fib(codesize + 2) is at most the sum of the counts |
| HuffmanDepth.MergeHeavy | libuvccamera/src/main/jni/libjpeg-turbo-1.5.0/jchuff.c:939-957 | the heavier of the last two merged trees bounds every tree from below, and the weight of a tree stays at least a Fibonacci number of each depth in it |
| HuffmanDepth.CodesStayShort | libuvccamera/src/main/jni/libjpeg-turbo-1.5.0/jchuff.c:963-966 | with fewer than 9227465 counts no code exceeds 32 bits |
| HuffmanLimit.CountsTake | libuvccamera/src/main/jni/libjpeg-turbo-1.5.0/jchuff.c:960-970 | the code space taken by the counts of lengths is the Kraft sum of the code sizes, and their total the number of symbols in use |
| HuffmanGenerate.LongestArePaired | libuvccamera/src/main/jni/libjpeg-turbo-1.5.0/jchuff.c:972-987 | in a complete code with a length above 16 the count at the longest length is even, and there is a nonempty length at least two below, so the search for j stops at j >= 1 |
| HuffmanGenerate.AdjustmentIsComplete | libuvccamera/src/main/jni/libjpeg-turbo-1.5.0/jchuff.c:989-992 | an adjustment keeps the Kraft sum exactly 1 and the number of symbols |
| HuffmanGenerate.LimitLengths | libuvccamera/src/main/jni/libjpeg-turbo-1.5.0/jchuff.c:983-994 | terminates with a complete code of lengths 1..16 for the same number of symbols, by adjustments each of which takes two symbols from the greatest length in use and puts one of them beside a symbol of the greatest length in use at least two shorter, and changes nothing if none was longer |
| HuffmanGenerate.AdjustBits | libuvccamera/src/main/jni/libjpeg-turbo-1.5.0/jchuff.c:989-992 | the four assignments are one adjustment, and every count still fits in eight bits |
| HuffmanGenerate.FullCountsShape | libuvccamera/src/main/jni/libjpeg-turbo-1.5.0/jchuff.c:960-970 | a count reaches 256 only with at least 256 symbols in use, and then all 256 codes have eight bits, or one has one bit and 256 have nine |
| HuffmanGenerate.CountLengths | libuvccamera/src/main/jni/libjpeg-turbo-1.5.0/jchuff.c:960-970 | counts the code sizes by length in eight bits, with the overflow exit exactly when some size exceeds 32; a count has wrapped around exactly if 256 symbols have codes of one length |
| HuffmanGenerate.UsedWithoutTwo | libuvccamera/src/main/jni/libjpeg-turbo-1.5.0/jchuff.c:779-817 | with two symbols that are never counted at most 255 symbols are in use, the pseudo-symbol included |
| HuffmanGenerate.DropPseudo | libuvccamera/src/main/jni/libjpeg-turbo-1.5.0/jchuff.c:996-999 | removes one code of the longest length L: the Kraft sum becomes 1 - 2^-L and the total one less |
| HuffmanGenerate.ListLength | libuvccamera/src/main/jni/libjpeg-turbo-1.5.0/jchuff.c:1010-1015 | appends exactly the symbols with one code size, in increasing order |
| HuffmanGenerate.ListSymbols | libuvccamera/src/main/jni/libjpeg-turbo-1.5.0/jchuff.c:1004-1016 | lists each real symbol in use exactly once, sorted by code size; as many as there are counts |
| HuffmanGenerate.MakeTable | libuvccamera/src/main/jni/libjpeg-turbo-1.5.0/jchuff.c:983-1016 | from the counts of a complete code, limiting lengths, dropping the pseudo-symbol and listing the symbols give a table of lengths 1..16 with Kraft sum 1 - 2^-L and as many entries as counts, in order of code size |
| HuffmanGenerate.GenOptimalTable | libuvccamera/src/main/jni/libjpeg-turbo-1.5.0/jchuff.c:886-1020 | optimal code sizes, and bits[] with their counts after such adjustments, less the one code left over; overflow exit exactly when one exceeds 32, never with fewer than 9227465 counts; counts that wrap around exactly when 256 symbols get codes of one length, never with fewer than 256 symbols in use; in all other cases a table of lengths 1..16 with Kraft sum 1 - 2^-L that lists each symbol once, with bits[] the counts of the optimal sizes when none exceeds 16 |
| HuffmanWrap.ThreeMoved | libuvccamera/src/main/jni/libjpeg-turbo-1.5.0/jchuff.c:910-958 | no other lengths for three symbols within the same code space cost less |
| HuffmanWrap.TwoLevels | libuvccamera/src/main/jni/libjpeg-turbo-1.5.0/jchuff.c:910-958 | if any two symbols in use are more frequent than any third, code sizes differ by at most one |
| HuffmanWrap.WrapsWhenBalanced | libuvccamera/src/main/jni/libjpeg-turbo-1.5.0/jchuff.c:960-970 | with 256 symbols in use a count wraps around if any two of them are more frequent than any third, and does not if a third is more frequent than some two |
| HuffmanWrap.EqualCountsWrap | libuvccamera/src/main/jni/libjpeg-turbo-1.5.0/jchuff.c:960-970 | a concrete run in which a count wraps around: 255 equally frequent symbols |
| HuffmanDerive.CodeFits | libuvccamera/src/main/jni/libjpeg-turbo-1.5.0/jchuff.c:264-282 | with Kraft sum below 1 each canonical code fits its length and is not all ones |
| HuffmanDerive.CodesAscend | libuvccamera/src/main/jni/libjpeg-turbo-1.5.0/jchuff.c:264-282 | a later canonical code is not shorter and lies beyond everything that begins with an earlier one |
| HuffmanDerive.CodesCount | libuvccamera/src/main/jni/libjpeg-turbo-1.5.0/jchuff.c:264-282 | the first code is zero, each one is the one before plus one with as many zeros appended as it is longer, and there are bits[l] codes of each length l, shorter ones first |
| HuffmanDerive.NotPrefix | libuvccamera/src/main/jni/libjpeg-turbo-1.5.0/jchuff.c:264-306 | no code word of a derived table is a prefix of another |
| HuffmanDerive.CanonicalIsPrefixCode | libuvccamera/src/main/jni/libjpeg-turbo-1.5.0/jchuff.c:264-306 | the derived codes form a prefix code without an all-ones word |
| HuffmanDerive.FillSizes | libuvccamera/src/main/jni/libjpeg-turbo-1.5.0/jchuff.c:251-262 | huffsize lists the code length of each position; fails exactly for more than 256 codes |
| HuffmanDerive.FillCodes | libuvccamera/src/main/jni/libjpeg-turbo-1.5.0/jchuff.c:264-282 | generates the canonical codes; fails exactly when the Kraft sum is not below 1 |
| HuffmanDerive.FillTable | libuvccamera/src/main/jni/libjpeg-turbo-1.5.0/jchuff.c:284-306 | enters codes and sizes by symbol; fails exactly on an out-of-range or repeated symbol |
| HuffmanDerive.MakeDerivedTable | libuvccamera/src/main/jni/libjpeg-turbo-1.5.0/jchuff.c:221-307 | accepts a table exactly when it has at most 256 entries, distinct in-range symbols and Kraft sum strictly below 1; the result is a prefix code |
| HuffmanDerive.GeneratedIsAcceptable | libuvccamera/src/main/jni/libjpeg-turbo-1.5.0/jchuff.c:996-1016 | every generated table whose symbols are in range is accepted, and gives every counted symbol a code of 1 to 16 bits |
| BitPacking.PackPacks | libuvccamera/src/main/jni/libjpeg-turbo-1.5.0/jchuff.c:463-480 | grouping bits into bytes and filling up with ones spells the bits followed by at most seven ones |
| BitPacking.PacksUniquely | libuvccamera/src/main/jni/libjpeg-turbo-1.5.0/jchuff.c:463-480 | there is only one such byte string |
| BitPacking.StuffInjective | libuvccamera/src/main/jni/libjpeg-turbo-1.5.0/jchuff.c:345-352 | byte stuffing can be undone |
| BitPacking.StuffHidesMarkers | libuvccamera/src/main/jni/libjpeg-turbo-1.5.0/jchuff.c:345-352 | every 0xFF in stuffed data is followed by zero, so no marker appears inside |
| BitPacking.WrittenIsPacked | libuvccamera/src/main/jni/libjpeg-turbo-1.5.0/jchuff.c:345-384 | bytes already written are the first of the packed bytes, so they are never more than those |
| MacroPacking.MacroPacker.constructor | libuvccamera/src/main/jni/libjpeg-turbo-1.5.0/jchuff.c:147-215 | an empty packer of a 32-bit or 64-bit word |
| MacroPacking.MacroPacker.EmitByte | libuvccamera/src/main/jni/libjpeg-turbo-1.5.0/jchuff.c:345-352 | the oldest eight pending bits leave the word as a stuffed byte |
| MacroPacking.MacroPacker.PutBits | libuvccamera/src/main/jni/libjpeg-turbo-1.5.0/jchuff.c:354-357 | a field is appended behind the pending bits; those that no longer fit into the word are lost |
| MacroPacking.MacroPacker.CheckBuf | libuvccamera/src/main/jni/libjpeg-turbo-1.5.0/jchuff.c:359-384 | writes two, four or six bytes when more than 15, 31 or 47 bits are pending |
| MacroPacking.MacroPacker.EmitBits | libuvccamera/src/main/jni/libjpeg-turbo-1.5.0/jchuff.c:392-409 | appends a field of at most 16 bits without losing any, for both word sizes |
| MacroPacking.MacroPacker.EmitCode | libuvccamera/src/main/jni/libjpeg-turbo-1.5.0/jchuff.c:397-417 | appends a code word and the masked additional bits without losing any, for both word sizes |
| MacroPacking.MacroPacker.FlushBits | libuvccamera/src/main/jni/libjpeg-turbo-1.5.0/jchuff.c:463-483 | writes the pending bits filled up with ones; states exactly which pending bits of an overfull word read as zeros |
| MacroPacking.MacroPacker.EmitMarker | libuvccamera/src/main/jni/libjpeg-turbo-1.5.0/jchuff.c:624-625 | appends the two bytes of a marker behind an empty word |
| MacroPacking.FlushIsLossless | libuvccamera/src/main/jni/libjpeg-turbo-1.5.0/jchuff.c:474-480 | a flush writes what was packed if and only if at most 57 bits of a 64-bit word (25 of a 32-bit word) are pending, or the pending bits beyond that are zeros |
| MacroPacking.PendingIsShort | libuvccamera/src/main/jni/libjpeg-turbo-1.5.0/jchuff.c:392-417 | how many bits are pending is a function of the sizes of the fields: never more than 15 of a 32-bit word, and at most 57 of a 64-bit word if the last field has at most ten bits |
| MacroPacking.PackWithMacros | libuvccamera/src/main/jni/libjpeg-turbo-1.5.0/jchuff.c:345-483 | for every sequence of fields the exact bytes that the macros write; they are the padded, stuffed bit string if and only if the pending bits, as computed from the fields, beyond the last 57 (25) are zeros |
| FlushOverrun.FlushLosesBits | libuvccamera/src/main/jni/libjpeg-turbo-1.5.0/jchuff.c:390-611 | a concrete run with legal tables: after a block with DC 128 and second coefficient 16, whose codes have 16 bits, 61 bits are pending in a 64-bit word, and the flush writes 0x0F where the scan has a stuffed 0xFF |
| ProgressivePacking.ProgressivePacker.constructor | libuvccamera/src/main/jni/libjpeg-turbo-1.5.0/jcphuff.c:109-195 | an empty packer, for output or for gathering statistics |
| ProgressivePacking.ProgressivePacker.EmitByte | libuvccamera/src/main/jni/libjpeg-turbo-1.5.0/jcphuff.c:252-261 | the top eight of the 24 bits leave as a stuffed byte |
| ProgressivePacking.ProgressivePacker.EmitBits | libuvccamera/src/main/jni/libjpeg-turbo-1.5.0/jcphuff.c:229-265 | appends a field of 1 to 16 bits, masked; a size of zero is the missing-code error; nothing is written when gathering |
| ProgressivePacking.ProgressivePacker.FlushBits | libuvccamera/src/main/jni/libjpeg-turbo-1.5.0/jcphuff.c:268-274 | writes the pending bits filled up with ones and empties the word, always without loss |
| ProgressivePacking.ProgressivePacker.EmitMarker | libuvccamera/src/main/jni/libjpeg-turbo-1.5.0/jcphuff.c:356-357 | appends the two bytes of a marker behind an empty word |
| ProgressivePacking.PackWithRoutine | libuvccamera/src/main/jni/libjpeg-turbo-1.5.0/jcphuff.c:229-274 | for every sequence of fields the 24-bit routine writes the padded, stuffed bit string |
| ProgressivePacking.PackersAgree | libuvccamera/src/main/jni/libjpeg-turbo-1.5.0/jchuff.c:345-483 | for every sequence of fields the bytes of both packers, exactly; they are the same if and only if the pending bits that the final flush of the macros shifts out, computed from the fields, are zeros |
| EntropyItems.SymbolIsRead | libuvccamera/src/main/jni/libjpeg-turbo-1.5.0/jdhuff.c:576-576 | with a prefix code, reading a symbol from its code word followed by anything returns the symbol and what follows |
| EntropyItems.PairIsReadFirst | libuvccamera/src/main/jni/libjpeg-turbo-1.5.0/jdhuff.c:599-607 | a code word and its additional bits at the head of the items are read back, leaving the rest |
| EntropyItems.PaddingReadsAsNothing | libuvccamera/src/main/jni/libjpeg-turbo-1.5.0/jchuff.c:473-475 | the ones that fill up the last byte never complete a code word |
| EntropyItems.UsedWhenPresent | libuvccamera/src/main/jni/libjpeg-turbo-1.5.0/jchuff.c:779-817 | a symbol occurs among the items exactly if it is counted |
| EntropyItems.UsesIsMultiplicity | libuvccamera/src/main/jni/libjpeg-turbo-1.5.0/jchuff.c:779-817 | the uses of a symbol are its multiplicity among the items |
| Coefficients.ExtendInverts | libuvccamera/src/main/jni/libjpeg-turbo-1.5.0/jdhuff.c:496-496 | HUFF_EXTEND applied to the additional bits and category of a coefficient gives the coefficient back |
| Coefficients.ZigzagIsInvertible | libuvccamera/src/main/jni/libjpeg-turbo-1.5.0/jchuff.c:586-597 | the order of the kloop calls visits every position once, so a block is recovered from it |
| Coefficients.OrderIsZigzag | libuvccamera/src/main/jni/libjpeg-turbo-1.5.0/jutils.c:56-64 | the order starts at position 0, and every step goes along a diagonal, up where row and column have an even sum and down where odd, or along the edge of the block where the diagonal ends |
| Coefficients.CategoryOf | libuvccamera/src/main/jni/libjpeg-turbo-1.5.0/jchuff.c:523-542 | category and additional bits are those of Table F.1: the fewest bits that hold the magnitude, and the value itself if positive, otherwise the value plus 2^n - 1 |
| SequentialBlock.AcRoundTrip | libuvccamera/src/main/jni/libjpeg-turbo-1.5.0/jdhuff.c:596-619 | from any point of a block, decoding its remaining AC items restores the remaining coefficients, with runs of sixteen zeros and the end-of-block code |
| SequentialBlock.BlockBeginsWithDc | libuvccamera/src/main/jni/libjpeg-turbo-1.5.0/jchuff.c:521-551 | a block begins with the category of the DC difference and its additional bits, and goes on with the AC coefficients in zigzag order |
| SequentialBlock.AcItemsAre | libuvccamera/src/main/jni/libjpeg-turbo-1.5.0/jchuff.c:561-604 | a nonzero coefficient behind a run of zeros is 0xF0 for each sixteen of them, one symbol 16 * rest + category, and the additional bits; zeros up to the end of the block are symbol 0 |
| SequentialBlock.DcDecodes | libuvccamera/src/main/jni/libjpeg-turbo-1.5.0/jdhuff.c:575-592 | the DC difference is decoded against the prediction, leaving the AC items |
| SequentialBlock.BlockRoundTrip | libuvccamera/src/main/jni/libjpeg-turbo-1.5.0/jchuff.c:505-611 | for every block in coefficient range and any tables with codes for its symbols, decoding its bits returns the block and leaves what follows |
| SequentialEncoder.SplitSign | libuvccamera/src/main/jni/libjpeg-turbo-1.5.0/jchuff.c:523-536 | the branchless code yields the absolute value, and its masked second result the additional bits |
| SequentialEncoder.KLoop | libuvccamera/src/main/jni/libjpeg-turbo-1.5.0/jchuff.c:561-584 | one kloop step appends exactly the items of one coefficient after its zero run |
| SequentialEncoder.EmitZeroRuns | libuvccamera/src/main/jni/libjpeg-turbo-1.5.0/jchuff.c:572-576 | runs of more than fifteen zeros become ZRL symbols, leaving at most fifteen |
| SequentialEncoder.EncodeDc | libuvccamera/src/main/jni/libjpeg-turbo-1.5.0/jchuff.c:521-551 | appends the category and additional bits of the DC difference |
| SequentialEncoder.EncodeOneBlock | libuvccamera/src/main/jni/libjpeg-turbo-1.5.0/jchuff.c:505-611 | appends exactly the items of the block, whose decoding is BlockRoundTrip, and leaves exactly as many bits pending as the block calls for |
| SequentialPending.BlockPendingFits | libuvccamera/src/main/jni/libjpeg-turbo-1.5.0/jchuff.c:392-417 | after any block with any usable tables at most 15 bits are pending in a 32-bit word and at most 63 in a 64-bit word |
| SequentialPending.BlockPendingShort | libuvccamera/src/main/jni/libjpeg-turbo-1.5.0/jchuff.c:390-417 | after a block with AC coefficients and an end-of-block code of at most 10 bits at most 57 bits are pending |
| SequentialStatistics.Statistics.constructor | libuvccamera/src/main/jni/libjpeg-turbo-1.5.0/jchuff.c:147-215 | all counts are zero |
| SequentialStatistics.Statistics.Count | libuvccamera/src/main/jni/libjpeg-turbo-1.5.0/jchuff.c:779-817 | counts one use of one symbol, and of no other |
| SequentialStatistics.Statistics.CountDc | libuvccamera/src/main/jni/libjpeg-turbo-1.5.0/jchuff.c:761-780 | counts the symbol of the DC difference; range error exactly above 11 bits |
| SequentialStatistics.Statistics.CountCoefficient | libuvccamera/src/main/jni/libjpeg-turbo-1.5.0/jchuff.c:786-813 | counts the symbols of one AC coefficient after its zero run; range error exactly above 10 bits |
| SequentialStatistics.Statistics.HtestOneBlock | libuvccamera/src/main/jni/libjpeg-turbo-1.5.0/jchuff.c:751-818 | counts exactly the symbols that encoding the block emits; range error exactly when a coefficient or the difference is out of range |
| SequentialStatistics.FitsMeans | libuvccamera/src/main/jni/libjpeg-turbo-1.5.0/jchuff.c:774-806 | a block fits exactly if its AC coefficients are between -1023 and 1023 and its DC difference between -2047 and 2047 |
| SequentialStatistics.CountBits | libuvccamera/src/main/jni/libjpeg-turbo-1.5.0/jchuff.c:767-772 | the shift loop computes the number of significant bits |
| RestartIntervals.HistoryHoldsAll | libuvccamera/src/main/jni/libjpeg-turbo-1.5.0/jchuff.c:689-697 | counting restarts_to_go divides the units of a scan into intervals that hold all of them in order, all but the last full |
| RestartIntervals.ChunksAreIntervals | libuvccamera/src/main/jni/libjpeg-turbo-1.5.0/jdhuff.c:520-551 | a decoder that counts units finds the same intervals |
| RestartIntervals.UnitStandsIn | libuvccamera/src/main/jni/libjpeg-turbo-1.5.0/jchuff.c:657-697 | unit number q * interval + r stands at place r of interval number q, and without restarts there is one interval |
| RestartIntervals.ScanIsFramed | libuvccamera/src/main/jni/libjpeg-turbo-1.5.0/jchuff.c:618-636 | a scan is the stuffed bytes of its intervals, with 0xFF and 0xD0 plus the number of the interval modulo 8 between one interval and the next |
| ByteStreams.EntropyIsRead | libuvccamera/src/main/jni/libjpeg-turbo-1.5.0/jchuff.c:345-352 | the stuffed bytes up to a marker are separated and unstuffed exactly |
| RestartIntervals.FramedInjective | libuvccamera/src/main/jni/libjpeg-turbo-1.5.0/jchuff.c:618-636 | scans whose intervals have the same lengths consist of the same bytes only if all their bits are the same |
| RestartIntervals.UnframeInverts | libuvccamera/src/main/jni/libjpeg-turbo-1.5.0/jchuff.c:618-636 | from the bytes of a scan a decoder separates the padded bits of every interval, checking the marker numbers modulo 8 |
| SequentialScan.BlocksRoundTrip | libuvccamera/src/main/jni/libjpeg-turbo-1.5.0/jdhuff.c:567-646 | the blocks of several components are decoded with their own predictions and tables |
| SequentialScan.BlockIsPredicted | libuvccamera/src/main/jni/libjpeg-turbo-1.5.0/jchuff.c:677-690 | a block is coded with the tables of its component, and its DC coefficient against that of the last block of the same component in the interval, or against zero |
| SequentialScan.IntervalRoundTrip | libuvccamera/src/main/jni/libjpeg-turbo-1.5.0/jdhuff.c:567-646 | all MCUs of a restart interval are decoded, and only padding is left |
| SequentialScan.ScanRoundTrip | libuvccamera/src/main/jni/libjpeg-turbo-1.5.0/jchuff.c:618-737 | the bytes of a whole scan, for any restart interval, followed by any marker, decode to exactly its blocks |
| SequentialFlushes.EmittedIsScan | libuvccamera/src/main/jni/libjpeg-turbo-1.5.0/jchuff.c:463-483 | over a whole scan: the bytes written are those of the scan if and only if the flush of each interval shifts out only zeros, which is a function of blocks and tables |
| SequentialFlushes.ShortFlushesWell | libuvccamera/src/main/jni/libjpeg-turbo-1.5.0/jchuff.c:463-483 | with a 32-bit word, or with AC coefficients and end-of-block codes of at most 10 bits, every flush does |
| SequentialPasses.WorkingState.constructor | libuvccamera/src/main/jni/libjpeg-turbo-1.5.0/jchuff.c:147-215 | an empty working state with predictions zero |
| SequentialPasses.WorkingState.Load | libuvccamera/src/main/jni/libjpeg-turbo-1.5.0/jchuff.c:651-655 | a copy of the saved state, sharing nothing with it |
| SequentialPasses.WorkingState.EmitRestart | libuvccamera/src/main/jni/libjpeg-turbo-1.5.0/jchuff.c:618-636 | flushes, writes the numbered marker and resets the predictions: the bytes are exactly those of the finished intervals, each as its flush leaves it |
| SequentialPasses.WorkingState.EncodeBlocks | libuvccamera/src/main/jni/libjpeg-turbo-1.5.0/jchuff.c:677-690 | appends the items of every block of an MCU, each against its component's prediction |
| SequentialPasses.WorkingState.WriteMcu | libuvccamera/src/main/jni/libjpeg-turbo-1.5.0/jchuff.c:657-690 | writes one MCU, with a restart marker before it exactly when the interval is full |
| SequentialPasses.WorkingState.WrittenSoFar | libuvccamera/src/main/jni/libjpeg-turbo-1.5.0/jchuff.c:692-695 | never more bytes are written than the scan would have if it ended here |
| SequentialPasses.HuffEncoder.constructor | libuvccamera/src/main/jni/libjpeg-turbo-1.5.0/jchuff.c:147-215 | nothing encoded yet |
| SequentialPasses.HuffEncoder.EncodeMcu | libuvccamera/src/main/jni/libjpeg-turbo-1.5.0/jchuff.c:643-707 | either the MCU is committed after the ones before it, or, when its bytes leave no space in the destination, nothing at all has changed; it is not refused when the space exceeds the bytes of the scan up to this MCU |
| SequentialPasses.HuffEncoder.FinishPass | libuvccamera/src/main/jni/libjpeg-turbo-1.5.0/jchuff.c:714-737 | the exact bytes; they are those of the scan if and only if no flush has shifted out a one |
| SequentialPasses.EncodeScan | libuvccamera/src/main/jni/libjpeg-turbo-1.5.0/jchuff.c:643-737 | whatever offers of space were refused in between, the bytes are exactly those that the scan calls for, with each MCU once and in order; they are the bytes of the scan if and only if no flush shifts out a one, and then decode to its blocks; it completes once there were as many ample offers as MCUs |
| SequentialOptimize.GatherEncoder.constructor | libuvccamera/src/main/jni/libjpeg-turbo-1.5.0/jchuff.c:147-215 | nothing counted yet |
| SequentialRange.FitAppend | libuvccamera/src/main/jni/libjpeg-turbo-1.5.0/jchuff.c:761-775 | whether blocks fit is decided block by block, each DC coefficient against the prediction that the ones before it leave |
| SequentialRange.NextFits | libuvccamera/src/main/jni/libjpeg-turbo-1.5.0/jchuff.c:826-855 | one more MCU fits exactly if its blocks fit the predictions it finds, which restart where an interval is full |
| SequentialRange.ScanHasSmallAc | libuvccamera/src/main/jni/libjpeg-turbo-1.5.0/jchuff.c:792-806 | in a scan that fits every AC coefficient has at most 10 bits |
| SequentialRange.EightBitScanFits | libuvccamera/src/main/jni/libjpeg-turbo-1.5.0/jchuff.c:761-775 | every scan of 8-bit data fits, DC coefficients of 11 bits such as -1024 included |
| SequentialOptimize.GatherEncoder.CountBlocks | libuvccamera/src/main/jni/libjpeg-turbo-1.5.0/jchuff.c:845-852 | counts exactly the items that encoding the blocks emits, with the same predictions; fails exactly if a block does not fit against its prediction |
| SequentialOptimize.GatherEncoder.CountRestarts | libuvccamera/src/main/jni/libjpeg-turbo-1.5.0/jchuff.c:835-843 | the predictions restart exactly where the output pass restarts them |
| SequentialOptimize.GatherEncoder.EncodeMcuGather | libuvccamera/src/main/jni/libjpeg-turbo-1.5.0/jchuff.c:826-855 | counts the items of the MCU with the predictions of the output pass; fails exactly if a DC difference exceeds 11 bits or an AC coefficient 10 |
| SequentialOptimize.GatherScan | libuvccamera/src/main/jni/libjpeg-turbo-1.5.0/jchuff.c:826-855 | over a whole scan, with restarts, the counts are exactly the uses of each symbol by the output pass; fails exactly if a DC difference exceeds 11 bits or an AC coefficient 10 |
| SequentialOptimize.TableFor | libuvccamera/src/main/jni/libjpeg-turbo-1.5.0/jchuff.c:1043-1061 | a table made from code sizes of least cost, with a code for every counted symbol; there is none only if a code size of least cost exceeds 32, never with fewer than 9227465 counts |
| SequentialOptimize.SymbolsInUse | libuvccamera/src/main/jni/libjpeg-turbo-1.5.0/jchuff.c:761-813 | of the symbols that coefficients in range lead to, at most 255 can be in use, so that no count of lengths wraps around |
| SequentialOptimize.OptimalTables | libuvccamera/src/main/jni/libjpeg-turbo-1.5.0/jchuff.c:1027-1062 | tables made from code sizes of least cost for the counts of the scan, with which every item of the scan can be encoded |
| SequentialOptimize.ShortEobFlushesWell | libuvccamera/src/main/jni/libjpeg-turbo-1.5.0/jchuff.c:463-483 | with AC coefficients of at most 10 bits no flush shifts out a one with a 32-bit word, or with end-of-block codes of at most 10 bits |
| SequentialOptimize.PartsAreEncodable | libuvccamera/src/main/jni/libjpeg-turbo-1.5.0/jchuff.c:826-855 | tables made for the statistics of a whole scan have codes for the symbols of each of its parts |
| SequentialOptimize.CountedScanIsReady | libuvccamera/src/main/jni/libjpeg-turbo-1.5.0/jchuff.c:826-855 | a scan whose statistics were gathered meets everything that the output pass requires |
| SequentialOptimize.EncodeOptimized | libuvccamera/src/main/jni/libjpeg-turbo-1.5.0/jchuff.c:643-1062 | gathering, table generation, derivation and output together, for any blocks: a range error exactly if a DC difference exceeds 11 bits or an AC coefficient 10; otherwise, under any pattern of refusals, tables of least cost and the exact bytes, which are those of the scan if and only if no flush shifts out a one, and then decode to its blocks; tables always exist with fewer than 9227465 counts each |
| EntropyEncoders.Attempt | libuvccamera/src/main/jni/libjpeg-turbo-1.5.0/jchuff.c:643-707 | one attempt either commits the MCU after the ones before it or changes nothing; only attempts without ample space are in vain |
| EntropyEncoders.BlockCarries | libuvccamera/src/main/jni/libjpeg-turbo-1.5.0/jcmaster.c:422-425 | block k of an MCU is handed on with component ci if the blocks of ci begin at or before k and end behind it |
| EntropyEncoders.FitsNext | libuvccamera/src/main/jni/libjpeg-turbo-1.5.0/jchuff.c:826-855 | a scan fits up to one MCU more exactly if it fits so far and that MCU fits |
| EntropyEncoders.EntropyEncoder.Output | libuvccamera/src/main/jni/libjpeg-turbo-1.5.0/jchuff.c:147-215 | an encoder about to write the MCUs of a scan |
| EntropyEncoders.EntropyEncoder.Statistics | libuvccamera/src/main/jni/libjpeg-turbo-1.5.0/jchuff.c:147-215 | an encoder about to count the symbols of the MCUs of a scan |
| EntropyEncoders.EntropyEncoder.Other | libuvccamera/src/main/jni/libjpeg-turbo-1.5.0/jcarith.c:812-905 | an encoder of which only its refusals are known |
| EntropyEncoders.EntropyEncoder.WriteMcu | libuvccamera/src/main/jni/libjpeg-turbo-1.5.0/jchuff.c:643-707 | the MCU handed over is written after the ones before it, or refused without any change |
| EntropyEncoders.EntropyEncoder.CountMcu | libuvccamera/src/main/jni/libjpeg-turbo-1.5.0/jchuff.c:826-855 | the symbols of the MCU handed over are counted, or it is out of range |
| EntropyEncoders.EntropyEncoder.EncodeMcu | libuvccamera/src/main/jni/libjpeg-turbo-1.5.0/jccoefct.c:201-209 | the MCU handed over joins the MCUs accepted, or it is refused, which takes an attempt, or it is an error |
| EntropyEncoders.EntropyEncoder.Finish | libuvccamera/src/main/jni/libjpeg-turbo-1.5.0/jchuff.c:714-737 | the last bytes: what the destination has received are exactly the bytes that the MCUs accepted call for |
| ScanPipeline.ScanBlocksOf | libuvccamera/src/main/jni/libjpeg-turbo-1.5.0/jcmaster.c:405-425 | every block of an MCU belongs to a component of the scan |
| ScanPipeline.EveryBlockIsSent | libuvccamera/src/main/jni/libjpeg-turbo-1.5.0/jccoefct.c:142-218 | the MCUs of a scan are width * height for one component and columns * rows otherwise, and hold every block of every component, tagged with that component, at a place of its own |
| ScanPipeline.EmittedDecodes | libuvccamera/src/main/jni/libjpeg-turbo-1.5.0/jchuff.c:643-737 | the bytes written are those of the scan if and only if no flush shifts out a one, and then decode to its blocks |
| ScanPipeline.FinishScan | libuvccamera/src/main/jni/libjpeg-turbo-1.5.0/jchuff.c:714-737 | an output pass that is complete ends with the exact bytes; one that is not has had fewer ample offers than MCUs |
| ScanPipeline.CompressScan | libuvccamera/src/main/jni/libjpeg-turbo-1.5.0/jccoefct.c:142-218 | controller and encoder together: every MCU that the controller puts together in its buffer is handed to the Huffman encoder, whose refusals suspend the controller; what the destination has received in the end are exactly the bytes that the MCUs of the image call for, dummy blocks included, which decode to their blocks unless a flush shifts out a one; as many ample offers as MCUs are enough |
| ScanPipeline.GatherPass | libuvccamera/src/main/jni/libjpeg-turbo-1.5.0/jccoefct.c:244-327 | a first pass stores all blocks and counts exactly the symbols of the MCUs that later passes write; a range error exactly if the scan does not fit |
| ScanPipeline.OutputPass | libuvccamera/src/main/jni/libjpeg-turbo-1.5.0/jccoefct.c:340-395 | a pass over the stored blocks writes exactly the bytes that the MCUs of the image call for |
| ScanPipeline.CompressOptimized | libuvccamera/src/main/jni/libjpeg-turbo-1.5.0/jccoefct.c:244-395 | statistics pass, tables of least cost, and output pass together: from transformed blocks to the exact bytes of the scan, under any sequence of offers of space; a range error exactly if a DC difference or AC coefficient is out of range |
| EobRuns.RunStaysBounded | libuvccamera/src/main/jni/libjpeg-turbo-1.5.0/jcphuff.c:714-723 | after any sequence of blocks EOBRUN < 0x7FFF, BE <= 937 and EOBRUN = 0 implies BE = 0 |
| EobRuns.RunCategory | libuvccamera/src/main/jni/libjpeg-turbo-1.5.0/jcphuff.c:322-328 | the category of a run is at most 14, so the safety check never fires |
| EobRuns.EobItemsAre | libuvccamera/src/main/jni/libjpeg-turbo-1.5.0/jcphuff.c:321-332 | a run of 2^k up to 2^(k + 1) - 1 blocks is symbol 16 * k and k bits that count on from 2^k |
| EobRuns.FullAt | libuvccamera/src/main/jni/libjpeg-turbo-1.5.0/jcphuff.c:714-723 | a run is written at once when it reaches 0x7FFF blocks, or when 63 more correction bits might not fit 1000 |
| EobRuns.RunItemsLookAhead | libuvccamera/src/main/jni/libjpeg-turbo-1.5.0/jcphuff.c:316-340 | collecting a run block by block emits the same items as knowing its length in advance |
| EobRuns.RunIsWrittenWhole | libuvccamera/src/main/jni/libjpeg-turbo-1.5.0/jcphuff.c:316-340 | a pending run is written as its final length followed by the correction bits of all its blocks in order, and covers only blocks without new coefficients |
| RefineBlock.PointRefines | libuvccamera/src/main/jni/libjpeg-turbo-1.5.0/jcphuff.c:643-659 | the coefficient at precision Al is that at precision Ah plus the correction bit with its sign |
| RefineBlock.PointIs | libuvccamera/src/main/jni/libjpeg-turbo-1.5.0/jcphuff.c:643-652 | the magnitude at precision Al is the quotient by 2^Al, and the coefficient known then is the coefficient without its bits below 2^Al, with its sign |
| RefineBlock.CorrectionsStep | libuvccamera/src/main/jni/libjpeg-turbo-1.5.0/jcphuff.c:691-695 | a coefficient of magnitude above 1 adds one correction bit, the lowest bit of its magnitude, and is not counted as a zero |
| RefineBlock.HeadItemsAre | libuvccamera/src/main/jni/libjpeg-turbo-1.5.0/jcphuff.c:673-711 | a newly nonzero coefficient is written as symbol 16 * zeros passed + 1 and a sign bit, 1 if positive, and a sixteenth zero before the last such coefficient as 0xF0, each followed by the correction bits of the coefficients passed |
| RefineBlock.RefinePartIs | libuvccamera/src/main/jni/libjpeg-turbo-1.5.0/jcphuff.c:714-723 | what lies behind the last newly nonzero coefficient goes with its correction bits into an end-of-band run, unless that coefficient ends the band |
| RefineBlock.CorrectionsAreRead | libuvccamera/src/main/jni/libjpeg-turbo-1.5.0/jdphuff.c:599-621 | the correction bits behind the end of band refine exactly the coefficients already nonzero |
| RefineBlock.PassedIsRead | libuvccamera/src/main/jni/libjpeg-turbo-1.5.0/jdphuff.c:567-588 | advancing over nonzero coefficients and r zeros reads their correction bits and stops at the target |
| RefineBlock.NewCoefficientIsDecoded | libuvccamera/src/main/jni/libjpeg-turbo-1.5.0/jdphuff.c:543-596 | a run/size-1 symbol, its sign and the corrections decode to the newly nonzero coefficient |
| RefineBlock.ZeroRunIsDecoded | libuvccamera/src/main/jni/libjpeg-turbo-1.5.0/jdphuff.c:543-596 | a ZRL and the corrections that belong to it decode to sixteen zeros passed |
| RefineBlock.HeadIsDecoded | libuvccamera/src/main/jni/libjpeg-turbo-1.5.0/jdphuff.c:543-597 | everything up to the last newly nonzero coefficient of a refined block is decoded |
| FirstBlock.TransformedIs | libuvccamera/src/main/jni/libjpeg-turbo-1.5.0/jcphuff.c:495-508 | the point transform keeps sign and rounds the magnitude towards zero; scaled up it is the coefficient at precision Al |
| FirstBlock.FirstItemsAre | libuvccamera/src/main/jni/libjpeg-turbo-1.5.0/jcphuff.c:490-540 | a coefficient that is not zero at precision Al is written as 0xF0 for each sixteen such zeros before it, one symbol 16 * rest + category, and the additional bits; zeros up to the end of the band add nothing |
| FirstBlock.FirstPartIs | libuvccamera/src/main/jni/libjpeg-turbo-1.5.0/jcphuff.c:542-546 | a block of a first scan is part of an end-of-band run exactly if its last coefficient is below 2^Al |
| FirstBlock.CoefficientIsDecoded | libuvccamera/src/main/jni/libjpeg-turbo-1.5.0/jdphuff.c:400-410 | one coefficient of a first scan, with its zero run, is decoded |
| FirstBlock.FirstIsDecoded | libuvccamera/src/main/jni/libjpeg-turbo-1.5.0/jdphuff.c:400-425 | everything but the zeros at the end of the band of a first scan is decoded |
| AcIntervals.HeadIsRead | libuvccamera/src/main/jni/libjpeg-turbo-1.5.0/jdphuff.c:542-597 | in first and refinement scans alike the decoder gets exactly to where the end of the band begins |
| AcIntervals.RunIsRead | libuvccamera/src/main/jni/libjpeg-turbo-1.5.0/jdphuff.c:556-564 | the length of an EOB run of 1 to 32767 blocks is read back |
| AcIntervals.RunIsDecoded | libuvccamera/src/main/jni/libjpeg-turbo-1.5.0/jdphuff.c:599-621 | the block that begins a run is finished and leaves n - 1 blocks of the run |
| AcIntervals.BlockIsDecoded | libuvccamera/src/main/jni/libjpeg-turbo-1.5.0/jdphuff.c:362-438 | a block outside a run is decoded, and the run its end begins reaches over the right number of blocks |
| AcIntervals.BlocksRoundTrip | libuvccamera/src/main/jni/libjpeg-turbo-1.5.0/jdphuff.c:496-639 | any number of blocks, in or out of a run, are decoded to their values at precision Al |
| AcIntervals.IntervalRoundTrip | libuvccamera/src/main/jni/libjpeg-turbo-1.5.0/jcphuff.c:464-739 | a whole restart interval of an AC scan decodes, from the coefficients known at precision Ah, to those at precision Al |
| AcIntervals.ReadyForNextScan | libuvccamera/src/main/jni/libjpeg-turbo-1.5.0/jcphuff.c:618-739 | what one AC scan leaves is what the scan of the next lower bit may start from |
| AcIntervals.LastScanIsExact | libuvccamera/src/main/jni/libjpeg-turbo-1.5.0/jcphuff.c:618-739 | after the scan with Al = 0 the band is exact |
| ProgressiveEmitter.Emitter.constructor | libuvccamera/src/main/jni/libjpeg-turbo-1.5.0/jcphuff.c:109-195 | nothing emitted or counted yet |
| ProgressiveEmitter.Emitter.EmitSymbol | libuvccamera/src/main/jni/libjpeg-turbo-1.5.0/jcphuff.c:281-290 | emits the code word of a symbol or counts it: the same log of items in both modes |
| ProgressiveEmitter.Emitter.EmitBits | libuvccamera/src/main/jni/libjpeg-turbo-1.5.0/jcphuff.c:229-265 | emits additional bits, or nothing when gathering: the same log of items in both modes |
| ProgressiveEmitter.Emitter.NextInterval | libuvccamera/src/main/jni/libjpeg-turbo-1.5.0/jcphuff.c:354-358 | closes an interval, with its numbered marker in output mode |
| ProgressiveEmitter.Emitter.FinishPass | libuvccamera/src/main/jni/libjpeg-turbo-1.5.0/jcphuff.c:746-760 | the output is the framed bits of all logged items, unless a code was missing |
| ProgressiveEncoder.NothingDue | libuvccamera/src/main/jni/libjpeg-turbo-1.5.0/jcphuff.c:673-674 | with fewer than sixteen zeros passed the order of emission is not affected |
| ProgressiveEncoder.SixteenthZero | libuvccamera/src/main/jni/libjpeg-turbo-1.5.0/jcphuff.c:673-684 | a ZRL that is written late, at the next nonzero coefficient, has the same place and the same corrections as one written at the sixteenth zero |
| ProgressiveEncoder.AllPassed | libuvccamera/src/main/jni/libjpeg-turbo-1.5.0/jcphuff.c:714-716 | at the end of the band the buffered corrections are those of the end of the band |
| ProgressiveEncoder.AcEncoder.constructor | libuvccamera/src/main/jni/libjpeg-turbo-1.5.0/jcphuff.c:109-195 | no block encoded yet, EOBRUN and BE zero |
| ProgressiveEncoder.AcEncoder.EmitBufferedBits | libuvccamera/src/main/jni/libjpeg-turbo-1.5.0/jcphuff.c:297-309 | appends the given correction bits in order |
| ProgressiveEncoder.AcEncoder.EmitRunSymbol | libuvccamera/src/main/jni/libjpeg-turbo-1.5.0/jcphuff.c:321-332 | appends the run-length symbol and its additional bits for every run below 0x8000 |
| ProgressiveEncoder.AcEncoder.EmitEobRun | libuvccamera/src/main/jni/libjpeg-turbo-1.5.0/jcphuff.c:316-340 | appends exactly the items of the pending run with its correction bits, and nothing if there is none; afterwards EOBRUN and BE are zero |
| ProgressiveEncoder.AcEncoder.WriteZeroRuns | libuvccamera/src/main/jni/libjpeg-turbo-1.5.0/jcphuff.c:673-684 | writes the ZRLs that are due with their corrections, but not beyond the last newly nonzero coefficient |
| ProgressiveEncoder.AcEncoder.BufferCorrection | libuvccamera/src/main/jni/libjpeg-turbo-1.5.0/jcphuff.c:691-695 | buffers the correction bit; the buffer never exceeds its 1000 entries |
| ProgressiveEncoder.AcEncoder.WriteNew | libuvccamera/src/main/jni/libjpeg-turbo-1.5.0/jcphuff.c:697-711 | writes a newly nonzero coefficient, its sign and the corrections passed |
| ProgressiveEncoder.AcEncoder.Prepare | libuvccamera/src/main/jni/libjpeg-turbo-1.5.0/jcphuff.c:643-659 | the pre-pass computes all magnitudes at precision Al and the last newly nonzero position |
| ProgressiveEncoder.AcEncoder.RefineBand | libuvccamera/src/main/jni/libjpeg-turbo-1.5.0/jcphuff.c:661-712 | the main pass has written exactly the head of the block and holds exactly the rest |
| ProgressiveEncoder.AcEncoder.FinishBlock | libuvccamera/src/main/jni/libjpeg-turbo-1.5.0/jcphuff.c:714-723 | the pending run absorbs the end of the block, and is written when a counter or the buffer could overflow |
| ProgressiveEncoder.AcEncoder.RefineBlockBand | libuvccamera/src/main/jni/libjpeg-turbo-1.5.0/jcphuff.c:640-723 | one refined block extends the encoded sequence by exactly its part |
| ProgressiveEncoder.AcEncoder.FirstCoefficient | libuvccamera/src/main/jni/libjpeg-turbo-1.5.0/jcphuff.c:490-540 | writes one coefficient of a first scan with its zero run; range error exactly above 10 bits |
| ProgressiveEncoder.AcEncoder.FinishFirst | libuvccamera/src/main/jni/libjpeg-turbo-1.5.0/jcphuff.c:542-546 | trailing zeros extend the pending run, written when it reaches 0x7FFF |
| ProgressiveEncoder.AcEncoder.FirstBlockBand | libuvccamera/src/main/jni/libjpeg-turbo-1.5.0/jcphuff.c:483-546 | one block of a first scan extends the encoded sequence by exactly its part, or is out of range |
| ProgressiveEncoder.AcEncoder.EmitRestart | libuvccamera/src/main/jni/libjpeg-turbo-1.5.0/jcphuff.c:347-369 | ends the run and the interval: the finished intervals hold exactly their items |
| ProgressiveEncoder.AcEncoder.CountMcu | libuvccamera/src/main/jni/libjpeg-turbo-1.5.0/jcphuff.c:551-559 | the restart counters and marker number advance with the intervals |
| ProgressiveEncoder.AcEncoder.EncodeMcuAcFirst | libuvccamera/src/main/jni/libjpeg-turbo-1.5.0/jcphuff.c:464-562 | encodes one MCU after the ones before, with a restart marker exactly when due; fails exactly when a coefficient is out of range |
| ProgressiveEncoder.AcEncoder.EncodeMcuAcRefine | libuvccamera/src/main/jni/libjpeg-turbo-1.5.0/jcphuff.c:618-739 | encodes one MCU after the ones before, with a restart marker exactly when due; the pending run holds exactly its correction bits in order |
| ProgressiveEncoder.AcEncoder.FinishPass | libuvccamera/src/main/jni/libjpeg-turbo-1.5.0/jcphuff.c:746-760 | a code was missing exactly if some item cannot be encoded; otherwise the output is the framed bits of the items of all intervals |
| ProgressiveEncoder.AcEncoder.FinishPassGather | libuvccamera/src/main/jni/libjpeg-turbo-1.5.0/jcphuff.c:767-778 | the counts are those of the items of all intervals, the pending run included |
| ProgressiveEncoder.CountRunBits | libuvccamera/src/main/jni/libjpeg-turbo-1.5.0/jcphuff.c:322-325 | the shift loop computes the category of the run |
| ProgressiveEncoder.CountMagnitude | libuvccamera/src/main/jni/libjpeg-turbo-1.5.0/jcphuff.c:524-527 | the shift loop computes the category of the magnitude |
| ProgressiveScan.IntervalsRoundTrip | libuvccamera/src/main/jni/libjpeg-turbo-1.5.0/jcphuff.c:347-369 | all restart intervals of an AC scan decode to the blocks at precision Al, EOB runs ending at each marker |
| ProgressiveScan.ScanRoundTrip | libuvccamera/src/main/jni/libjpeg-turbo-1.5.0/jcphuff.c:464-760 | the bytes of a whole AC scan, first or refinement, for any restart interval, decode from precision Ah to precision Al |
| ProgressiveScan.EncodeBlocks | libuvccamera/src/main/jni/libjpeg-turbo-1.5.0/jcphuff.c:464-739 | all blocks of a scan are encoded in the intervals the decoder expects; fails exactly when a coefficient is out of range |
| ProgressiveScan.EncodeAcScan | libuvccamera/src/main/jni/libjpeg-turbo-1.5.0/jcphuff.c:464-760 | succeeds exactly when all coefficients are in range and all symbols have codes; then a decoder obtains the blocks at precision Al |
| ProgressiveScan.GatherAcScan | libuvccamera/src/main/jni/libjpeg-turbo-1.5.0/jcphuff.c:767-807 | the statistics pass counts exactly the symbols that the output pass emits, EOB runs included |
| ProgressiveScan.EncodeAcOptimized | libuvccamera/src/main/jni/libjpeg-turbo-1.5.0/jcphuff.c:767-807 | with the table of least cost made for a scan its output never misses a code and decodes to the blocks at precision Al; there always is a table with fewer than 9227465 counts |
| ScriptDecoding.NextIsPrior | libuvccamera/src/main/jni/libjpeg-turbo-1.5.0/jcmaster.c:257-273 | a scan of a valid script finds each coefficient known to exactly the precision that it builds upon, and leaves it known to its own |
| ScriptDecoding.NextScan | libuvccamera/src/main/jni/libjpeg-turbo-1.5.0/jcmaster.c:257-273 | the same for all blocks of a component |
| ScriptDecoding.OtherScan | libuvccamera/src/main/jni/libjpeg-turbo-1.5.0/jcmaster.c:257-273 | scans of DC coefficients or of other components change nothing |
| ScriptDecoding.ScriptRoundTrip | libuvccamera/src/main/jni/libjpeg-turbo-1.5.0/jcmaster.c:230-301 | over any valid progressive script: decoding its AC scans of a component in order gives every coefficient at the last bit position sent |
| ScriptDecoding.CompleteIsExact | libuvccamera/src/main/jni/libjpeg-turbo-1.5.0/jcmaster.c:230-301 | coefficients sent down to bit position 0 are exact |
| ScriptDecoding.EncodeScript | libuvccamera/src/main/jni/libjpeg-turbo-1.5.0/jcphuff.c:464-807 | encodes all AC scans of a component of a script, each decodable from whatever the scan may build upon |
| ScriptDecoding.SimpleProgressionRoundTrip | libuvccamera/src/main/jni/libjpeg-turbo-1.5.0/jcparam.c:468-540 | from the recommended script through encoding and decoding of all AC scans of a component every AC coefficient is restored exactly, unless there is no table for a scan, which takes at least 9227465 counts |
| ReciprocalDivision.RoundedDown | libuvccamera/src/main/jni/libjpeg-turbo-1.5.0/jcdctmgr.c:204-205 | multiplying by a reciprocal rounded down, with the dividend increased by one, divides exactly while the error stays small |
| ReciprocalDivision.RoundedUp | libuvccamera/src/main/jni/libjpeg-turbo-1.5.0/jcdctmgr.c:206-208 | multiplying by a reciprocal rounded up divides exactly while the error stays small |
| Quantizer.Flss | libuvccamera/src/main/jni/libjpeg-turbo-1.5.0/jcdctmgr.c:82-110 | the binary search finds the number of significant bits of every 16-bit value |
| Quantizer.StandsForOne | libuvccamera/src/main/jni/libjpeg-turbo-1.5.0/jcdctmgr.c:179-190 | for divisor 1 the stored values make the quantizer the identity |
| Quantizer.StandsForExact | libuvccamera/src/main/jni/libjpeg-turbo-1.5.0/jcdctmgr.c:200-203 | for a power of two the halved reciprocal fits and divides exactly |
| Quantizer.StandsForDown | libuvccamera/src/main/jni/libjpeg-turbo-1.5.0/jcdctmgr.c:204-205 | with a remainder of at most half the divisor, rounding down and correcting divides exactly and fits in w bits |
| Quantizer.RoundedUpFits | libuvccamera/src/main/jni/libjpeg-turbo-1.5.0/jcdctmgr.c:206-208 | a reciprocal that is rounded up still fits in w bits |
| Quantizer.StandsForUp | libuvccamera/src/main/jni/libjpeg-turbo-1.5.0/jcdctmgr.c:206-208 | with a larger remainder, rounding up divides exactly |
| Quantizer.ComputeReciprocal | libuvccamera/src/main/jni/libjpeg-turbo-1.5.0/jcdctmgr.c:172-221 | stores values that, read back as signed w-bit elements, divide every magnitude below 2^(w-1) exactly, for every 16-bit divisor; touches no other entry; the result says whether the shift fits |
| Quantizer.Reciprocal | libuvccamera/src/main/jni/libjpeg-turbo-1.5.0/jcdctmgr.c:192-208 | for every divisor above 1, in all three cases, multiply-and-shift equals rounded division |
| Quantizer.NearestMultiple | libuvccamera/src/main/jni/libjpeg-turbo-1.5.0/jcdctmgr.c:449-470 | the rounded quotient is the one number of the same sign whose multiple of the divisor is no farther from the dividend than half the divisor, halves away from zero |
| Quantizer.QuotientFits | libuvccamera/src/main/jni/libjpeg-turbo-1.5.0/jcdctmgr.c:435-472 | for a 16-bit dividend the quotient is no larger than it, and its conversion to 16 bits changes nothing |
| Quantizer.Descale | libuvccamera/src/main/jni/libjpeg-turbo-1.5.0/jcdctmgr.c:428-430 | neither the sum nor the product overflows, and the result is (temp + d / 2) / d |
| Quantizer.Quantize | libuvccamera/src/main/jni/libjpeg-turbo-1.5.0/jcdctmgr.c:407-438 | every coefficient is the sign-symmetric rounded quotient of its workspace value |
| Quantizer.QuantizePlain | libuvccamera/src/main/jni/libjpeg-turbo-1.5.0/jcdctmgr.c:440-474 | the plain division computes the same rounded quotient |
| ContextRows.WindowMovesDown | libuvccamera/src/main/jni/libjpeg-turbo-1.5.0/jcprepct.c:253-259 | from one row group to the next the context window of the clamped image moves down by one group |
| ContextRows.WindowAt | libuvccamera/src/main/jni/libjpeg-turbo-1.5.0/jcprepct.c:246-252 | row i of the window of group g is row g * v + i - v of the image, or the edge row nearest to it |
| ContextRows.WrappedPointers | libuvccamera/src/main/jni/libjpeg-turbo-1.5.0/jcprepct.c:299-304 | pointers for five row groups of which the first and last are aliases of the third and first of the buffer |
| ContextRows.ContextPreprocessor.constructor | libuvccamera/src/main/jni/libjpeg-turbo-1.5.0/jcprepct.c:269-308 | three row groups, and pointers for five that wrap around; the start of a pass |
| ContextRows.ContextPreprocessor.StoreRow | libuvccamera/src/main/jni/libjpeg-turbo-1.5.0/jcprepct.c:215-218 | stores the next image row into its slot and no other |
| ContextRows.ContextPreprocessor.PadTop | libuvccamera/src/main/jni/libjpeg-turbo-1.5.0/jcprepct.c:219-229 | the rows above the image become copies of its first row, through the aliased pointers |
| ContextRows.ContextPreprocessor.PadBottom | libuvccamera/src/main/jni/libjpeg-turbo-1.5.0/jcprepct.c:108-119 | the rows up to where storing stops become copies of the last row |
| ContextRows.ContextPreprocessor.RowsOfWindow | libuvccamera/src/main/jni/libjpeg-turbo-1.5.0/jcprepct.c:246-252 | through the wrapped pointers, the rows around the group to be processed are rows clamp(g*v - v + i, 0, H-1) of the image for i < 3v |
| ContextRows.ContextPreprocessor.Downsample | libuvccamera/src/main/jni/libjpeg-turbo-1.5.0/jcprepct.c:246-260 | the downsampler is given the window of the next row group; the pointers advance with wraparound |
| ContextRows.ContextPreprocessor.Convert | libuvccamera/src/main/jni/libjpeg-turbo-1.5.0/jcprepct.c:210-232 | takes the rows at hand that are still needed, and pads the top the first time |
| ContextRows.ContextPreprocessor.Step | libuvccamera/src/main/jni/libjpeg-turbo-1.5.0/jcprepct.c:209-261 | each round takes rows or completes a row group, and stops exactly when the input is used up above the bottom |
| ContextRows.ContextPreprocessor.Process | libuvccamera/src/main/jni/libjpeg-turbo-1.5.0/jcprepct.c:197-262 | for any image height and any split of the scanlines over calls, all row groups handed on are windows of the clamped image, in order; it returns early only for lack of input |
| CoefficientGeometry.RoundingsAgree | libuvccamera/src/main/jni/libjpeg-turbo-1.5.0/jcmaster.c:147-170 | the block counts and the MCU counts computed from the image size by different roundings fit: the last MCU has at least one and at most the full number of real blocks |
| CoefficientGeometry.RemainderFits | libuvccamera/src/main/jni/libjpeg-turbo-1.5.0/jcmaster.c:412-418 | last_col_width and last_row_height are what remains for the last MCU |
| CoefficientGeometry.SetupIsValid | libuvccamera/src/main/jni/libjpeg-turbo-1.5.0/jcmaster.c:354-436 | for every image size and all sampling factors the computed geometry is what the coefficient controllers rely on |
| CoefficientGeometry.SetupCoversImage | libuvccamera/src/main/jni/libjpeg-turbo-1.5.0/jcmaster.c:147-170 | the MCU columns and rows are the fewest that cover the image, and the block columns and rows of a component the fewest that cover its share of the samples |
| CoefficientGeometry.DummyRepeats | libuvccamera/src/main/jni/libjpeg-turbo-1.5.0/jccoefct.c:181-196 | dummy blocks at the right, at the bottom and in the corner have zero AC and repeat the DC of the block before them |
| ScanCoverage.OneComponent | libuvccamera/src/main/jni/libjpeg-turbo-1.5.0/jccoefct.c:81-88 | a scan of one component has width * height MCUs, and MCU number r * width + k is the block in block row r and column k, for every block and no other |
| ScanCoverage.SeveralComponents | libuvccamera/src/main/jni/libjpeg-turbo-1.5.0/jccoefct.c:158-200 | an interleaved scan has columns * rows MCUs; MCU number i * columns + m has for each component in turn the v rows of h blocks at its place in the image, and for those beyond the edge blocks without AC and with the DC of the block before |
| ScanCoverage.EveryBlockIsThere | libuvccamera/src/main/jni/libjpeg-turbo-1.5.0/jccoefct.c:142-218 | every block of every component is in the MCU and at the place that its row and column give |
| ScanCoverage.PlacesDiffer | libuvccamera/src/main/jni/libjpeg-turbo-1.5.0/jccoefct.c:142-218 | two blocks have the same MCU and the same place in it only if they are the same block |
| CoefficientController.PaddedRowIs | libuvccamera/src/main/jni/libjpeg-turbo-1.5.0/jccoefct.c:277-295 | a stored row of real blocks and right-edge dummies is the padded row |
| CoefficientController.PaddedRowAt | libuvccamera/src/main/jni/libjpeg-turbo-1.5.0/jccoefct.c:301-318 | the block at a column of the padded row is the one that the MCU covering it takes |
| CoefficientController.LoadedIs | libuvccamera/src/main/jni/libjpeg-turbo-1.5.0/jccoefct.c:370-378 | the block that an MCU takes from the virtual arrays is the one that a single pass computes, also for a scan of one component |
| CoefficientController.VirtualArrays | libuvccamera/src/main/jni/libjpeg-turbo-1.5.0/jccoefct.c:412-433 | one full-image buffer for each component, none of them shared |
| CoefficientController.CoefController.constructor | libuvccamera/src/main/jni/libjpeg-turbo-1.5.0/jccoefct.c:404-449 | the buffers for a single pass or for several |
| CoefficientController.CoefController.StartPass | libuvccamera/src/main/jni/libjpeg-turbo-1.5.0/jccoefct.c:99-130 | a pass begins at the first row with nothing handed over |
| CoefficientController.CoefController.StartIMcuRow | libuvccamera/src/main/jni/libjpeg-turbo-1.5.0/jccoefct.c:71-92 | resets the counters; one MCU row per iMCU row when interleaved, else as many as there are block rows |
| CoefficientController.CoefController.BuildRealRow | libuvccamera/src/main/jni/libjpeg-turbo-1.5.0/jccoefct.c:175-188 | a row of transformed blocks and right-edge dummies |
| CoefficientController.CoefController.BuildDummyRow | libuvccamera/src/main/jni/libjpeg-turbo-1.5.0/jccoefct.c:189-196 | a row of bottom dummies with the DC of the last block above |
| CoefficientController.CoefController.BuildComp | libuvccamera/src/main/jni/libjpeg-turbo-1.5.0/jccoefct.c:168-200 | the blocks of one component of an MCU, real and dummy |
| CoefficientController.CoefController.BuildMcu | libuvccamera/src/main/jni/libjpeg-turbo-1.5.0/jccoefct.c:158-200 | exactly the blocks of the MCU, in order |
| CoefficientController.CoefController.EncodeMcu | libuvccamera/src/main/jni/libjpeg-turbo-1.5.0/jccoefct.c:201-209 | the MCU in the buffer goes to the entropy encoder; accepted or refused, what the encoder has accepted is what comes before the current position |
| CoefficientController.CoefController.CompressMcu | libuvccamera/src/main/jni/libjpeg-turbo-1.5.0/jccoefct.c:158-210 | an MCU put together from transformed blocks and dummies is what the encoder is handed |
| CoefficientController.CoefController.CompressRow | libuvccamera/src/main/jni/libjpeg-turbo-1.5.0/jccoefct.c:156-210 | continues a row of MCUs where it was refused |
| CoefficientController.CoefController.CompressData | libuvccamera/src/main/jni/libjpeg-turbo-1.5.0/jccoefct.c:142-218 | the MCUs handed over so far are exactly those before the current position; a refusal loses and repeats none |
| CoefficientController.CoefController.StoreRealRow | libuvccamera/src/main/jni/libjpeg-turbo-1.5.0/jccoefct.c:280-295 | stores a row with its right-edge dummies and changes no other |
| CoefficientController.CoefController.StoreDummyRow | libuvccamera/src/main/jni/libjpeg-turbo-1.5.0/jccoefct.c:301-318 | stores a bottom row of dummies, MCU by MCU from the row above, and changes no other |
| CoefficientController.CoefController.StoreComp | libuvccamera/src/main/jni/libjpeg-turbo-1.5.0/jccoefct.c:256-319 | stores the strip of a component; the other strips are unchanged |
| CoefficientController.CoefController.StoreStrip | libuvccamera/src/main/jni/libjpeg-turbo-1.5.0/jccoefct.c:244-320 | one more strip of all components is stored, and may be stored again after a refusal |
| CoefficientController.CoefController.LoadComp | libuvccamera/src/main/jni/libjpeg-turbo-1.5.0/jccoefct.c:370-379 | the blocks of one component come from the arrays in MCU order |
| CoefficientController.CoefController.LoadMcu | libuvccamera/src/main/jni/libjpeg-turbo-1.5.0/jccoefct.c:368-379 | exactly the blocks of the MCU that a single pass builds |
| CoefficientController.CoefController.OutputMcu | libuvccamera/src/main/jni/libjpeg-turbo-1.5.0/jccoefct.c:366-389 | an MCU taken from the virtual arrays is what the encoder is handed, and it is that of a single pass |
| CoefficientController.CoefController.OutputRow | libuvccamera/src/main/jni/libjpeg-turbo-1.5.0/jccoefct.c:364-389 | continues a row of MCUs from the arrays where it was refused |
| CoefficientController.CoefController.CompressOutput | libuvccamera/src/main/jni/libjpeg-turbo-1.5.0/jccoefct.c:340-395 | the MCUs handed over from the arrays are exactly those before the current position |
| CoefficientController.CoefController.CompressFirstPass | libuvccamera/src/main/jni/libjpeg-turbo-1.5.0/jccoefct.c:244-327 | redoing the strip after a refusal changes nothing, and the MCUs handed over are those of a single pass |
| CoefficientController.WithinRow | libuvccamera/src/main/jni/libjpeg-turbo-1.5.0/jccoefct.c:142-218 | every position within a row of interleaved MCUs comes before its end, and so does the next MCU |
| CoefficientController.CoefController.Standing | libuvccamera/src/main/jni/libjpeg-turbo-1.5.0/jccoefct.c:142-218 | between two calls the MCUs accepted are the first of the scan, and all of them exactly after the last row |
| CoefficientController.CoefController.SinglePass | libuvccamera/src/main/jni/libjpeg-turbo-1.5.0/jccoefct.c:142-218 | under any pattern of refusals a completed pass has handed over every MCU once in order; a pass is not completed only if the encoder fails or all attempts are used up |
| CoefficientController.CoefController.FirstPass | libuvccamera/src/main/jni/libjpeg-turbo-1.5.0/jccoefct.c:244-327 | the same for a first pass, after which all strips gone through are stored |
| CoefficientController.CoefController.LaterPass | libuvccamera/src/main/jni/libjpeg-turbo-1.5.0/jccoefct.c:340-395 | the same for a pass over the stored strips |
| CoefficientController.CoefController.NextPass | libuvccamera/src/main/jni/libjpeg-turbo-1.5.0/jccoefct.c:99-130 | a pass over the stored strips with another entropy encoder, from its first MCU on |
| CoefficientController.CoefController.TwoPasses | libuvccamera/src/main/jni/libjpeg-turbo-1.5.0/jccoefct.c:244-395 | a first pass and a later pass over the arrays with another encoder both hand over the MCU sequence of a single pass, under any pattern of refusals |
| MainController.WithheldLine | libuvccamera/src/main/jni/libjpeg-turbo-1.5.0/jcmainct.c:98-120 | a concrete run in which one line is reported although none was passed: the first call is refused and reports none, the second, without lines but with room, reports one |
| MainController.Compressor.constructor | libuvccamera/src/main/jni/libjpeg-turbo-1.5.0/jcmainct.c:51-68 | nothing taken, nothing accepted |
| MainController.Compressor.ProcessData | libuvccamera/src/main/jni/libjpeg-turbo-1.5.0/jcmainct.c:77-123 | scanlines are taken once and in order, rows of MCUs accepted once and in order; it suspends only without room, and one line is withheld from the count exactly while suspended; more lines are counted than passed if and only if none are passed after a suspension and there is room for all full rows |
| MainController.Compressor.WriteScanlines | libuvccamera/src/main/jni/libjpeg-turbo-1.5.0/jcapistd.c:77-112 | the scanline counter equals the lines taken, less the withheld one, and reaches the image height exactly when the last row has been accepted; it advances by more than the lines passed under exactly the same condition on the state before |
| ScanScripts.ExtendPart | libuvccamera/src/main/jni/libjpeg-turbo-1.5.0/jcmaster.c:257-273 | a scan extends a valid part of a progressive script exactly when the checks on its last bit positions pass |
| ScanScripts.LastSent | libuvccamera/src/main/jni/libjpeg-turbo-1.5.0/jcmaster.c:257-273 | the last bit position of a coefficient is Al of the last scan that sends it |
| ScanScripts.NeverSent | libuvccamera/src/main/jni/libjpeg-turbo-1.5.0/jcmaster.c:238-241 | the last bit position of a coefficient that no scan has sent is -1 |
| ScanScripts.ProgressiveIs | libuvccamera/src/main/jni/libjpeg-turbo-1.5.0/jcmaster.c:216-301 | a progressive script is valid exactly if each scan has 1 to 4 ascending components, 0 <= Ss <= Se <= 63, Ah and Al up to 10 and DC apart from AC, sends a coefficient from the top the first time and then from its last bit position by one bit, and if all DC coefficients are sent |
| ScanScripts.SequentialIs | libuvccamera/src/main/jni/libjpeg-turbo-1.5.0/jcmaster.c:274-306 | a sequential script is valid exactly if its scans are of whole blocks at full precision and each component is in exactly one of them |
| ScanScripts.CheckComponents | libuvccamera/src/main/jni/libjpeg-turbo-1.5.0/jcmaster.c:216-227 | accepts exactly one to four in-range component indexes in ascending order |
| ScanScripts.CheckComponent | libuvccamera/src/main/jni/libjpeg-turbo-1.5.0/jcmaster.c:258-272 | accepts exactly if AC does not precede DC and each coefficient starts at Ah = 0 or descends by one bit; the table then holds the new positions |
| ScanScripts.CheckScan | libuvccamera/src/main/jni/libjpeg-turbo-1.5.0/jcmaster.c:245-273 | accepts exactly the scans that follow the earlier ones |
| ScanScripts.ValidateProgressive | libuvccamera/src/main/jni/libjpeg-turbo-1.5.0/jcmaster.c:197-301 | accepts exactly the scripts in which every coefficient's scans start with Ah = 0 and lower Al by exactly one, AC never precedes DC, DC and AC are apart, and every DC is sent |
| ScanScripts.MarkSent | libuvccamera/src/main/jni/libjpeg-turbo-1.5.0/jcmaster.c:279-285 | accepts exactly if no component of the scan was sent before |
| ScanScripts.ValidateSequential | libuvccamera/src/main/jni/libjpeg-turbo-1.5.0/jcmaster.c:209-306 | accepts exactly the scripts of whole-block scans that send every component exactly once |
| ScanScripts.ValidateScript | libuvccamera/src/main/jni/libjpeg-turbo-1.5.0/jcmaster.c:176-308 | accepts exactly the valid scripts, and tells progressive ones from sequential ones |
| SimpleProgression.FillAScan | libuvccamera/src/main/jni/libjpeg-turbo-1.5.0/jcparam.c:406-419 | appends exactly that scan, which validly follows the script so far |
| SimpleProgression.GeneralScriptIs | libuvccamera/src/main/jni/libjpeg-turbo-1.5.0/jcparam.c:528-539 | the scans of the general script by position: DC down to bit 1, AC 1 to 5 and 6 to 63 down to bit 2, AC to bit 1, DC to bit 0, AC to bit 0, for each component |
| SimpleProgression.YCbCrScriptIs | libuvccamera/src/main/jni/libjpeg-turbo-1.5.0/jcparam.c:508-527 | the ten scans of the YCbCr script in order, with chrominance before the rest of luminance |
| SimpleProgression.FillScans | libuvccamera/src/main/jni/libjpeg-turbo-1.5.0/jcparam.c:421-438 | appends exactly one such scan per component, each valid |
| SimpleProgression.FillDcScans | libuvccamera/src/main/jni/libjpeg-turbo-1.5.0/jcparam.c:440-460 | appends exactly one interleaved DC scan, or one per component when there are more than four |
| SimpleProgression.FillGeneral | libuvccamera/src/main/jni/libjpeg-turbo-1.5.0/jcparam.c:528-539 | the general script, exactly: it has the computed number of scans, is valid, and leaves every coefficient at Al = 0 |
| SimpleProgression.FillYCbCr | libuvccamera/src/main/jni/libjpeg-turbo-1.5.0/jcparam.c:508-527 | the YCbCr script, exactly: it has 10 scans, is valid, and leaves every coefficient at Al = 0 |
| SimpleProgression.MakeSimpleProgression | libuvccamera/src/main/jni/libjpeg-turbo-1.5.0/jcparam.c:468-540 | exactly nscans entries are written, those of the script; the validator accepts them; every coefficient ends at Al = 0 |
| PassControl.Master.constructor | libuvccamera/src/main/jni/libjpeg-turbo-1.5.0/jcmaster.c:620-636 | the state before the first pass, with one or two passes for each scan |
| PassControl.Master.SelectScanParameters | libuvccamera/src/main/jni/libjpeg-turbo-1.5.0/jcmaster.c:313-334 | the current scan is the one the scan counter names |
| PassControl.Master.PrepareForPass | libuvccamera/src/main/jni/libjpeg-turbo-1.5.0/jcmaster.c:447-522 | sets up gathering or output of the right scan, skipping the statistics of Huffman DC refinements; headers are written at the start of output passes; fails exactly if statistics are wanted of the arithmetic encoder |
| PassControl.Master.PassStartup | libuvccamera/src/main/jni/libjpeg-turbo-1.5.0/jcmaster.c:535-542 | the frame header and the first scan header are written once, with the first scanlines |
| PassControl.Master.FinishPass | libuvccamera/src/main/jni/libjpeg-turbo-1.5.0/jcmaster.c:549-582 | the pass counter advances by one; after the last pass everything is done, and only then |
| PassControl.Master.Compress | libuvccamera/src/main/jni/libjpeg-turbo-1.5.0/jcapimin.c:161-196 | unless it fails at once because statistics are wanted of the arithmetic encoder, the run ends with pass_number = total_passes, and the events are the frame header once, then each scan gathered immediately before it is output, in order, and the trailer |
| PassControl.FirstScanFromTop | libuvccamera/src/main/jni/libjpeg-turbo-1.5.0/jcmaster.c:261-265 | the first scan of a valid script has Ah = 0, so that its pass is never skipped |
| PassControl.InitMasterControl | libuvccamera/src/main/jni/libjpeg-turbo-1.5.0/jcmaster.c:589-640 | a controller exists exactly for valid scripts, and progressive Huffman coding implies optimization |
| PassControl.EveryScanOnce | libuvccamera/src/main/jni/libjpeg-turbo-1.5.0/jcmaster.c:447-582 | each scan is output exactly once under exactly one header, and gathered exactly once if optimized, except for Huffman DC refinements, which never are |
| PassControl.EventsOfScan | libuvccamera/src/main/jni/libjpeg-turbo-1.5.0/jcmaster.c:480-511 | behind the events of the scans before it a scan has, if optimized and Ss is not 0, Ah is 0 or the coding is arithmetic, its statistics pass, then the frame header if it is the first, its own header and its data |
| PassControl.TablesAreItsOwn | libuvccamera/src/main/jni/libjpeg-turbo-1.5.0/jcmaster.c:480-511 | in optimized Huffman coding every scan of AC coefficients and every first scan of DC coefficients is output right after its own statistics were gathered, with nothing but headers in between |

## Left out

- ScriptDecoding.SimpleProgressionRoundTrip: about AC coefficients, one component at a time and with one restart interval for all scans.
- progressive DC scans (jcphuff.c:377-456 and jcphuff.c:571-612): their coding is that of a DC difference or of single bits and adds no state to what is modelled here.
- the binarization of coefficients for arithmetic coding, its restart markers and conditioning (jcarith.c:320-905): the coder is modelled for arbitrary sequences of decisions; CALCULATE_SPECTRAL_CONDITIONING is not part of the model.
- HuffmanGenerate.GenOptimalTable: requires at least one real symbol and a sum of counts of at most 1000000000; the code needs both without checking them, since the search starts from that value. What it does once a count has wrapped around is not modelled.
- HuffmanWrap.WrapsWhenBalanced: with 256 symbols in use nothing is stated when the least frequent two are together exactly as frequent as the most frequent one; and with all 257 in use the shape of the code is stated (HuffmanGenerate.FullCountsShape) but not which counts lead to it. When a code exceeds 32 bits is stated over the code sizes, and one way over the sum of the counts.
- SequentialPasses.HuffEncoder.FinishPass: the error exit for a destination that is full at the end of a scan is not modelled; the destination is a growing sequence of bytes.
- SequentialPasses.HuffEncoder.EncodeMcu: the destination refuses by a number of free bytes given for each attempt, and an MCU that exactly fills them is refused. With fewer than 256 free bytes the code writes through a staging buffer and does the same; with more it writes a block directly and notices a full destination only later. That choice, the callbacks of the destination and one that empties itself in the middle of an MCU are not modelled.
- EntropyEncoders.EntropyEncoder: of the arithmetic and progressive encoders only refusals are modelled here; they are not composed with the coefficient controller. The attempts of a pass are a finite list of offers, so that a pass that never gets enough space ends as well.
- CoefficientController.CoefController.TwoPasses: the virtual arrays hold whole block rows as sequences, so their windows and reallocation are not modelled; a scan of one component is modelled with the arrays of that component only; the DCT with quantization is an arbitrary function of component and position.
- MainController.Compressor.PreProcessData: preprocessing is abstracted to the number of scanlines that must have come in before each row of MCUs is full; ContextRows is not composed with it.
- MainController.Compressor.CompressData: an oracle that completes a given number of rows and then refuses.
- Quantizer.ComputeReciprocal: the scale entry, which only SIMD code reads, is 1 as without SIMD.
- PassControl.Master: transcoding passes and the case of no script are not modelled. Marker writing is modelled as events.
- SimpleProgression.MakeSimpleProgression: the reuse of script memory between calls is not modelled; the caller supplies enough space.
- the decoders (jdarith.c:67-185, jdhuff.c:490-648, jdphuff.c:362-639): modelled on valid input; warnings, concealment, suspension of the decoder and the bit-by-bit or table lookup of code words are not, a code word is read as the unique one at the head of the bits.
- pre_process_data (jcprepct.c:130-190), the non-context preprocessing with bottom padding of the output: simpler than the context mode modelled here.
- per_scan_setup's conversion of restart_in_rows (jcmaster.c:430-435).
- integer widths: registers and counters that the proofs bound (a, c, EOBRUN, BE, products of the quantizer, bits[]) fit the source's types; dimensions and totals are unbounded.
- forward DCT, floating-point quantization, downsampling, colour conversion and SIMD routines.
- memory management, destination callbacks, progress hooks and error exits other than those named: errors are results or excluded inputs.
- UVCCamera, jlibrtp and the command-line programs.
