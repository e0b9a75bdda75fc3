# Verified models of the QR encoder, the investigation board, the dark-web worker and the export queue

This project states and proves what four parts of the system are for.

**The QR encoder and its image back end** (`frontend/qrcode.js`). The methods that draw, divide, pack and
compress are modelled as methods that work step by step on arrays, sequences and fields, each proved against a
specification, and the specifications are proved to have inverses:

- `Make` and `MakeLeast` are the whole encoder. They refuse the data exactly when a character is illegal or no
  room is left, and otherwise `ReadSymbol`, a reader that is given nothing but the modules, returns the segments.
  The reader finds the version in the size, level and mask in the format word, strips the mask, follows the
  zigzag path, undoes the interleaving and parses the stream. It skips the error correction; what
  that is good for is in `Correction`: a damaged symbol comes from one text only. `QrText` is the way from a text to
  a symbol and back.
- `Gf256`, `Polynomials`, `QrPolynomial`, `ReedSolomon` and `CodeDistance` build the code from the feedback shift
  of one byte: the order of alpha is 255, logarithms exist, the field laws hold, the generator has no zero
  coefficient up to length 254 (and one at 255, so that length 256 throws), every encoded block is a multiple of
  the generator, two codewords with n parity bytes differ in more than n places, and so at most one codeword lies
  within half of that distance.
- The reader has its own path (`PathOrder`), masks (`MaskTiles`, `MaskLaws`), count widths and format column, from the
  standard, and they are proved to be those of the writer; so are the colours of the patterns, the block table
  (`BlockTable`), the pad words and two format and version words in full (`BchDistance`).
- `Bch` and `BchDistance` do for the format and version words what `CodeDistance` does for blocks: two of them differ
  in at least seven and eight modules, so three wrong ones leave one reading. `Capacity` counts the modules that the
  patterns leave free.
- `Lzw` is a decoder written from Appendix F of the GIF89a specification; `GifRaster` proves that the compressor
  never throws, exactly when a decoder recovers the pixels, and exactly when one that reads on finds the end code.
  `LzwNames` follows the table to names that were never added, and `GifEndCode` counts the bits.
- `Base64` and `Utf8` are round trips against RFC 4648 and RFC 3629, for all inputs, with the exact class of
  strings on which the UTF-8 conversion is injective.

**The investigation board** (`frontend/investigation.js`): a class with the graph and both stacks (`Board`,
`History`), what a merge leaves on it (`BoardMerge`), and the connection finder (`ShortestPath`).

**The dark-web worker** (`worker/voidaccess_worker.py`): the replay table (`ReplayWindow`), the normalizer
(`Normalizer`), what a normalized report contains (`ReportMeaning`), and the one-job slot with concurrent cancellation
(`JobSlot`).

**Export jobs** (`Sources/App/Controllers/ExportJobController.swift` and its worker): admission under a row lock
and compare-and-set cancellation as a transition system (`ExportJobs`), and how long rows must be kept for its daily
limit (`ExportRetention`).

## Where the code does less than it seems to promise

Each of these is proved, with the condition under which the promise is kept.

- The compressor's table is a plain object, so that names inherited from Object.prototype count as entries. The pixels
  are recovered if and only if they do not lead the table to such a name (`GifRaster.GetLzwRaster`); every image is
  safe if and only if the code size is 6 or less (`GifRaster.SafeAlphabets`), and the source uses 2.
- The GIF end code is written in the width of the code before it. A decoder that has just widened misses it
  exactly when the table has ended at 16 entries, for code size 2, or at 256, for code sizes 3 to 7
  (`GifRaster.GetLzwRaster`), which does not touch the pixels. For code size 2, 64 equal pixels are such an
  image (`GifRaster.MissedEndCode`) and no image of more than 66 pixels is
  (`GifRaster.LargeImage`): a symbol, of at least 21 by 21 pixels, never misses its end code.
- `getErrorCorrectPolynomial` throws from length 256 on (`ReedSolomon.GetErrorCorrectPolynomial`), because the
  product of 255 factors has a zero coefficient (`ReedSolomon.Generator255`); the block table stays far below.
- The UTF-8 conversion pairs any surrogate with whatever follows it. Its output is always well-formed UTF-8, it is
  injective exactly up to that repair (`Utf8.SameOctets`), and a lone surrogate collides (`Utf8.LoneSurrogate`).
- The connection finder keeps its tables in plain objects, so that names inherited from Object.prototype can defeat
  it. Its answer is right if and only if no visible edge and not the destination has such a name, and the start has
  not the name of an inherited function with parameters while a node `undefined` leads to the destination
  (`ShortestPath.ShortestPath`; a board on which it is wrong is in `ShortestPath.TwoNodes`).
- No replay is accepted when both clock readings of a call are one instant and the lock is taken in the order of the
  readings (`ReplayWindow.NoReplay`). Both are needed. Any delay between the readings at the end of the window lets
  a replay through (`ReplayWindow.LateReadAccepts`); and as the second reading is taken before the lock, a call that
  reads later and locks first lets one through inside its window (`ReplayWindow.OvertakenAccepts`). The exact
  condition for a second acceptance is `ReplayWindow.AcceptedAgain`.
- Secret values are erased from a report except for whether they are valid at all, which shows exactly when the same
  secret is not reported again (`Normalizer.ErasedExactly`, `Normalizer.RepeatedSecretHides`).
- A merge of boards can leave an edge without its end, because ids are trimmed and ends are not
  (`Board.MergedCloses` has the exact condition, `Board.UntrimmedEnd` the input).
- The default conversion of texts keeps the low byte of each code unit; the text is read back exactly when it has no
  other (`QrText.MakeText`).
- One investigation process runs at a time as long as `killpg` does not fail on a running process after a timeout
  (`JobSlot.OneProcess`); if it does, the lock is freed and the process goes on (`JobSlot.FailedKillOverlaps`).
- A cancellation that arrives between the start of a process and its publication finds nothing
  (`JobSlot.CancelCanMiss`).
- The daily limit counts rows, not creations: it bounds the creations of every 24 hours if and only if rows are kept
  for more than 24 hours (`ExportRetention.RetentionExact`), and when they are not, one job more can be created
  (`ExportRetention.DeletionIsForgotten`).

## Model

| member | source | states |
|---|---|---|
| Gf256.OrderOfAlpha | frontend/qrcode.js:1132-1150 | The doubling step of the exponent table, started at 1, first returns to 1 after 255 steps. |
| Gf256.PowerInjective | frontend/qrcode.js:1132-1150 | The first 255 entries of the exponent table are different. |
| Gf256.LogExists | frontend/qrcode.js:1132-1160 | Every byte but zero is in the exponent table, so the logarithm table has no hole. |
| Gf256.PowerSum | frontend/qrcode.js:1216 | Adding logarithms multiplies: alpha^i times alpha^j is alpha^(i+j). |
| Gf256.MulAssociates | frontend/qrcode.js:1210-1221 | The product through logarithms, zero apart, is associative. |
| Gf256.MulDistributes | frontend/qrcode.js:1210-1221 | The product through logarithms distributes over exclusive or, on both sides. |
| Gf256.MulZero | frontend/qrcode.js:1153-1160 | A product is zero exactly when a factor is: there are no zero divisors. |
| QrMath.PowerRecurrence | frontend/qrcode.js:1140-1146 | The recurrence from which entries 8 to 255 are computed (exclusive or of four earlier ones) gives the powers of alpha. |
| QrMath.LogUnique | frontend/qrcode.js:1147-1149 | The logarithm of a power below 255 is its exponent. |
| QrMath.PowerModulo | frontend/qrcode.js:1162-1173 | Reduction of an exponent into the table does not change the power. |
| QrMath.QrMath.constructor | frontend/qrcode.js:1132-1151 | The tables hold the powers of alpha and their logarithms. |
| QrMath.QrMath.FillExp | frontend/qrcode.js:1134-1146 | Both loops together fill the exponent table with the powers of alpha. |
| QrMath.QrMath.FillLog | frontend/qrcode.js:1147-1149 | Every byte but zero gets its logarithm. |
| QrMath.QrMath.Glog | frontend/qrcode.js:1153-1160 | The logarithm, for zero and only for zero an exception. |
| QrMath.QrMath.Gexp | frontend/qrcode.js:1162-1173 | The power of alpha for every integer exponent, negative ones included; the loops terminate. |
| Polynomials.EvalProduct | frontend/qrcode.js:1210-1221 | The convolution is the product of polynomials: evaluation turns it into the product of values. |
| Polynomials.EvalDivides | frontend/qrcode.js:1223-1242 | A division with remainder evaluates to quotient times divisor plus remainder. |
| Polynomials.DivideStep | frontend/qrcode.js:1229-1241 | Cancelling the leading coefficient keeps the remainder of the division. |
| QrPolynomial.StripSplit | frontend/qrcode.js:1189-1202 | Stripping takes away leading zeros and nothing else. |
| QrPolynomial.NewPolynomial | frontend/qrcode.js:1182-1203 | The coefficients without leading zeros, followed by as many zeros as the shift asks for (slots that were never set: see below). |
| QrPolynomial.MultiplyRow | frontend/qrcode.js:1214-1218 | One row of the convolution is added in place, and fails exactly when a coefficient is zero. |
| QrPolynomial.Multiply | frontend/qrcode.js:1210-1221 | The stripped product, or an exception exactly when a factor has a zero coefficient. |
| QrPolynomial.CancelHigh | frontend/qrcode.js:1229-1238 | The multiple of the divisor that cancels the leading coefficient is added in place. |
| QrPolynomial.Mod | frontend/qrcode.js:1223-1242 | The recursion terminates; the result is shorter than the divisor and is the remainder of a division; it throws exactly for a zero leading coefficient or a divisor with a zero. |
| ReedSolomon.CoefficientRatio | frontend/qrcode.js:966-972 | Neighbouring coefficients of the product of (x + alpha^i) are in the ratio of q-binomials. |
| ReedSolomon.GeneratorNonzero | frontend/qrcode.js:966-972 | Up to length 254 no coefficient of the generator is zero. |
| ReedSolomon.Generator255 | frontend/qrcode.js:966-972 | At length 255 the second coefficient is zero. |
| ReedSolomon.GeneratorMonic | frontend/qrcode.js:966-972 | The generator is monic. |
| ReedSolomon.GeneratorRoots | frontend/qrcode.js:966-972 | The generator of length n vanishes at alpha^0 to alpha^(n-1). |
| ReedSolomon.GetErrorCorrectPolynomial | frontend/qrcode.js:966-972 | The generator of the asked length, or an exception exactly from length 256 on. |
| ReedSolomon.MultiplesAreCodewords | frontend/qrcode.js:285-301 | Every multiple of the generator has the roots of the generator (section 7.5 of ISO/IEC 18004:2015). |
| ReedSolomon.Systematic | frontend/qrcode.js:293-301 | Data followed by the right-aligned remainder of the shifted data are a multiple of the generator. |
| ReedSolomon.EncodeBlock | frontend/qrcode.js:285-301 | Data and parity of every block, all-zero and leading-zero blocks included, are a multiple of the generator; exact condition of the exception. |
| ReedSolomon.AlignRemainder | frontend/qrcode.js:297-301 | The remainder, right-aligned in as many bytes as there are parity bytes. |
| CodeDistance.Vandermonde | frontend/qrcode.js:285-301 | Different locations whose power sums vanish for as many exponents have no non-zero weight. |
| CodeDistance.MinimumWeight | frontend/qrcode.js:285-301 | A codeword of 255 bytes at most with n parity bytes that is not zero has more than n non-zero bytes. |
| CodeDistance.MinimumDistance | frontend/qrcode.js:285-301 | Two different codewords differ in more than n bytes. |
| CodeDistance.UniqueCorrection | frontend/qrcode.js:285-301 | At most one codeword lies within n/2 errors of what is received. |
| CodeDistance.ParityIsUnique | frontend/qrcode.js:296-301 | The parity bytes are determined by the data. |
| LsbBits.NumberOfLow | frontend/qrcode.js:2100-2116 | Bits taken least significant first give the number back. |
| BitOutputStream.BitOutputStream.Write | frontend/qrcode.js:2100-2116 | The bits of the code, least significant first, follow those written before; refused exactly when the code does not fit its width, and then nothing is written. |
| BitOutputStream.BitOutputStream.Flush | frontend/qrcode.js:2118-2122 | The bytes hold the written bits, filled up with zeros. |
| Lzw.EntryOfCode | frontend/qrcode.js:2127-2187 | The code that the encoder emits is known to a decoder one entry behind, the code being defined at that moment included (Appendix F of the GIF89a specification). |
| Lzw.DecodeCode | frontend/qrcode.js:2127-2187 | A decoder that is in step reads one code as the text it stands for. |
| Lzw.StaySynchronous | frontend/qrcode.js:2164-2173 | Encoder and decoder widen at the same code and stop at 12 bits together. |
| Lzw.DecodeEncode | frontend/qrcode.js:2127-2187 | Decoding the encoding of any pixels gives the pixels, whatever bits follow. |
| Lzw.CodeIsData | frontend/qrcode.js:2100-2104 | No emitted code overflows its width or is a clear or end code. |
| Lzw.EndCodeWidth | frontend/qrcode.js:2166-2182 | After the last code the decoder is one bit wider than the encoder exactly when the table is full to a power of two. |
| Lzw.EndCodeSeen | frontend/qrcode.js:2179-2184 | A decoder sees the end code, written without a width check, unless it has widened at the last code and no padding bit follows. |
| GifRaster.LzwTable.Add | frontend/qrcode.js:2196-2202 | A new text gets the next code; one that is there, or has an inherited name, is refused. |
| GifRaster.LzwTable.IndexOf | frontend/qrcode.js:2208-2210 | The code of a text that is there, and of an inherited name what the bit operators make of it, 0. |
| GifRaster.NewTable | frontend/qrcode.js:2133-2140 | The roots, then the places of the clear and end codes, without repeats. |
| GifRaster.EmitMiss | frontend/qrcode.js:2162-2175 | One code, the new entry and the widening together, as in the specification of the encoder. |
| GifRaster.GetLzwRaster | frontend/qrcode.js:2127-2187 | It never throws; the decoder recovers the pixels if and only if they do not lead the table to an inherited name, which 64 pixel values or less never do; and then the end code is seen if and only if the table has not ended at 16 entries (code size 2) or 256 (3 to 7), and always for more than 66 pixels of code size 2. |
| LzwNames.NotMisled | frontend/qrcode.js:2151-2178 | A compressor that does not meet an inherited name writes what one with a clean table writes. |
| LzwNames.MisledDecodes | frontend/qrcode.js:2151-2178 | One that meets it writes 0 for the name, and no decoder gets the pixels. |
| LzwNames.BlocksMislead | frontend/qrcode.js:2151-2178 | An image that spells the prefixes of a name in turn leads the table to it, for every name and code size. |
| GifRaster.Unspelled | frontend/qrcode.js:2191-2214 | Pixels that nowhere spell an inherited name are safe. |
| GifRaster.EveryNameMisleads | frontend/qrcode.js:2191-2214 | For code sizes 7 to 11 every inherited name has an image whose pixels are lost. |
| GifRaster.SafeAlphabets | frontend/qrcode.js:2191-2214 | All images are safe if and only if the code size is 6 or less. |
| GifRaster.LostPixels | frontend/qrcode.js:2127-2187 | A call with code size 7 whose pixels are not read back. |
| GifEndCode.EncodedBits | frontend/qrcode.js:2158-2182 | The number of bits of any encoding is determined by the final size of the table. |
| GifEndCode.Critical | frontend/qrcode.js:2166-2184 | The sizes at which the decoder is one bit wider and the end code fills its byte: 16 for code size 2, 256 for 3 to 7, none for 8 and more. |
| GifEndCode.PixelsAt | frontend/qrcode.js:2158-2175 | m new entries stand for at most 1 + 2 + ... + (m + 1) pixels. |
| GifEndCode.SamePixels | frontend/qrcode.js:2158-2175 | The size of the table after any number of equal pixels. |
| GifRaster.LargeImage | frontend/qrcode.js:2127-2187 | No image of more than 66 pixels ends at the critical size of code size 2. |
| GifRaster.SmallImage | frontend/qrcode.js:2127-2187 | Every image of 56 to 66 equal pixels does. |
| GifRaster.MissedEndCode | frontend/qrcode.js:2127-2187 | A call on 64 equal pixels: the pixels are read back and the end code is not seen. |
| MsbBits.NumberOfHigh | frontend/qrcode.js:1576-1580 | Bits taken most significant first give the number back. |
| QrBitBuffer.QrBitBuffer.PutBit | frontend/qrcode.js:1586-1598 | One bit is appended, whatever the buffer holds. |
| QrBitBuffer.QrBitBuffer.Put | frontend/qrcode.js:1576-1580 | The number is appended most significant bit first. |
| QrBitBuffer.ByteNumber | frontend/qrcode.js:1569-1598 | The bits of a byte, most significant first, are those of its value. |
| Segments.AlphaCharOfCode | frontend/qrcode.js:1694-1718 | The 45 alphanumeric codes are different. |
| Segments.CountBitsTabulated | frontend/qrcode.js:974-1020 | The widths of the count fields are those of the standard's table (Table 3 of ISO/IEC 18004:2015). |
| Segments.ParseNumericBits | frontend/qrcode.js:1622-1648 | Groups of three, two and one digits in 10, 7 and 4 bits parse back to the digits, leading zeros included. |
| Segments.ParseAlphaBits | frontend/qrcode.js:1679-1692 | Pairs in 11 bits and a last character in 6 bits parse back. |
| Segments.ParseOctetBits | frontend/qrcode.js:1743-1747 | Bytes parse back. |
| Segments.ParseStreamBits | frontend/qrcode.js:338-343 | A whole stream of segments, each with mode and count, parses back to the segments (section 7.4 of ISO/IEC 18004:2015). |
| DataStream.StrToNum | frontend/qrcode.js:1642-1655 | The number of a digit string, or an exception exactly for a character that is no digit. |
| DataStream.WriteNumeric | frontend/qrcode.js:1622-1648 | The groups of digits are appended; refused exactly for an illegal character. |
| DataStream.GetCode | frontend/qrcode.js:1694-1718 | The code of a character, or an exception exactly outside the alphabet. |
| DataStream.WriteAlphanumeric | frontend/qrcode.js:1679-1692 | The pairs of characters are appended; refused exactly for an illegal character. |
| DataStream.WriteOctets | frontend/qrcode.js:1743-1747 | The bytes are appended. |
| DataStream.WriteSegments | frontend/qrcode.js:338-343 | The stream of the segments, in order; refused exactly when one is illegal. |
| DataStream.Align | frontend/qrcode.js:365-367 | Zeros up to the next byte, fewer than eight. |
| DataStream.PutPads | frontend/qrcode.js:369-381 | The two pad bytes in turn, up to the capacity; the loop terminates. |
| DataStream.Pad | frontend/qrcode.js:359-381 | Terminator, alignment and pad bytes together. |
| DataStream.PaddedIs | frontend/qrcode.js:359-381 | What follows the stream: zeros up to a whole word, terminator included, and then 11101100 and 00010001 in turn. |
| DataStream.ParsePadded | frontend/qrcode.js:359-381 | Padding does not disturb the parse, even where the terminator is cut short or missing. |
| DataStream.CreateStream | frontend/qrcode.js:332-383 | Exactly the capacity of the version, or an exception exactly for illegal or too long data. |
| RsBlocks.TableRow | frontend/qrcode.js:1253-1499 | Each of the 160 rows fits its version: the code words fill the raw modules, blocks of the second size have one word of data more and as much parity, and parity stays within bounds. |
| BlockTable.RowFollows | frontend/qrcode.js:1253-1499 | Each row has the number of blocks and of parity words per block that the standard tabulates (Table 9 of ISO/IEC 18004:2015). |
| BlockTable.RowDetermined | frontend/qrcode.js:1253-1499 | These two numbers determine the row. |
| RsBlocks.DataDescends | frontend/qrcode.js:1253-1499 | In every version the levels L, M, Q and H leave less and less room for data. |
| RsBlocks.BlockCounts | frontend/qrcode.js:1526-1551 | The expanded list has the totals of its row. |
| RsBlocks.GetRSBlocks | frontend/qrcode.js:1526-1551 | The list of blocks of a version and level. |
| Interleave.DeinterleaveInterleaved | frontend/qrcode.js:305-327 | Dealing out the interleaved words by the block sizes gives the blocks back, for any sizes. |
| Interleave.InterleavedIsPermutation | frontend/qrcode.js:305-327 | Every word is emitted exactly once. |
| FinalMessage.WriteColumns | frontend/qrcode.js:311-327 | The loops write column after column in place. |
| FinalMessage.EncodeBlocks | frontend/qrcode.js:275-301 | Each block gets its slice of the buffer and its own parity; it throws exactly when a block has 256 parity bytes or more, or 255 on data that are not all zero. |
| FinalMessage.CreateBytes | frontend/qrcode.js:267-330 | The interleaved data, then the interleaved parity, in as many bytes as the blocks have; it throws exactly when one of the blocks does. |
| FinalMessage.MessageIsUnique | frontend/qrcode.js:267-330 | That description leaves one message only. |
| Zigzag.WholePathCovers | frontend/qrcode.js:226-264 | The zigzag path visits every module outside column 6 once, for any odd size. |
| Zigzag.FillFrame | frontend/qrcode.js:232-252 | Placement decides every undecided module of the path and no other. |
| Zigzag.ReadFill | frontend/qrcode.js:216-265 | Unmasking in visiting order gives the bits, followed by zeros. |
| PathOrder.PathIs | frontend/qrcode.js:216-265 | The path is the order of the standard, counted off by strip and step. |
| MaskLaws.MaskIsTile | frontend/qrcode.js:940-968 | Each of the eight mask functions repeats the tile of its pattern over the whole symbol. |
| FunctionPatterns.PatternPosition | frontend/qrcode.js:863-904 | The centres of every version begin at 6, end seven modules before the edge, and lie at even distances, given by a formula, from the second one on. |
| FunctionPatterns.ColumnSixReserved | frontend/qrcode.js:57-72 | The function patterns reserve column 6 from top to bottom, for every version. |
| FunctionPatterns.CentresApart | frontend/qrcode.js:133-162 | No two alignment patterns overlap. |
| FunctionPatterns.FormatModules | frontend/qrcode.js:185-213 | The two copies of the format word take 15 different modules each, and with the dark module they are the format area. |
| FunctionPatterns.VersionModules | frontend/qrcode.js:168-176 | The two copies of the version word take 18 different modules each. |
| PathOrder.FormatOrder | frontend/qrcode.js:185-213 | The bits of the format word run down the one column and leftwards along the one row, the timing lines left out. |
| PathOrder.VersionOrder | frontend/qrcode.js:168-176 | The bits of the version word run row by row, and mirrored. |
| PathOrder.FinderRings | frontend/qrcode.js:75-94 | A finder is dark but for its second ring and the separator. |
| PathOrder.AlignmentRings | frontend/qrcode.js:148-160 | An alignment pattern is five modules wide and dark but for its first ring. |
| PathOrder.TimingParity | frontend/qrcode.js:116-131 | A timing module is dark where row and column have the same parity. |
| SymbolPatterns.AdjustIsClear | frontend/qrcode.js:133-162 | No alignment pattern that is drawn touches a finder, format or version module. |
| SymbolPatterns.AdjustsDone | frontend/qrcode.js:133-162 | Drawing the alignment patterns leaves the finders as they are. |
| SymbolPatterns.TimingDone | frontend/qrcode.js:116-131 | The timing lines spoil neither finders nor alignment patterns. |
| Bch.DigitsOfXor | frontend/qrcode.js:922-924 | Each step of the division shortens the dividend, so that the loop terminates. |
| Bch.GetBCHDigit | frontend/qrcode.js:911-918 | The number of binary digits. |
| Bch.Reduce | frontend/qrcode.js:920-933 | The remainder is shorter than the divisor and congruent to the dividend over GF(2). |
| Bch.JoinedIsMultiple | frontend/qrcode.js:925-933 | Data joined with the remainder are a multiple of the divisor, with the data in the high bits. |
| Bch.GetBCHTypeInfo | frontend/qrcode.js:920-926 | Unmasked, the format word is a multiple of G15 with the data in the high bits (section 7.9 of ISO/IEC 18004:2015), for data of any size on unbounded numbers. |
| Bch.GetBCHTypeNumber | frontend/qrcode.js:928-934 | The version word is a multiple of G18 with the data in the high bits (section 7.10 of ISO/IEC 18004:2015), likewise. |
| BchDistance.DistanceTriangle | frontend/qrcode.js:920-934 | The number of differing modules is a distance. |
| BchDistance.BitOfClmul | frontend/qrcode.js:920-934 | The bits of a product over GF(2) are the taps of a shift register. |
| BchDistance.DigitsOfClmul | frontend/qrcode.js:920-934 | Degrees add, so a multiple of 15 or 18 digits has a quotient of 5 or 6. |
| BchDistance.FormatMultiples | frontend/qrcode.js:920-926 | Every multiple of G15 but zero, of 15 digits at most, has seven ones or more. |
| BchDistance.FormatDistance | frontend/qrcode.js:920-926 | Two different format words differ in at least seven modules (section 7.9 of ISO/IEC 18004:2015). |
| BchDistance.FormatIsRead | frontend/qrcode.js:179-214 | With at most three modules of a format word wrong, one level and mask is left. |
| BchDistance.VersionMultiples | frontend/qrcode.js:928-934 | Every multiple of G18 but zero, of 18 digits at most, has eight ones or more. |
| BchDistance.VersionDistance | frontend/qrcode.js:928-934 | Two different version words differ in at least eight modules (section 7.10 of ISO/IEC 18004:2015). |
| BchDistance.VersionIsRead | frontend/qrcode.js:164-177 | With at most three modules of a version word wrong, one version is left. |
| BchDistance.FormatDetermined | frontend/qrcode.js:920-926 | Level and mask determine the format word. |
| BchDistance.VersionDetermined | frontend/qrcode.js:928-934 | The version determines the version word. |
| BchDistance.FormatExample | frontend/qrcode.js:920-926 | The word of level M and mask 5 is 100000011001110, the example of section 7.9 of ISO/IEC 18004:2015. |
| BchDistance.VersionExample | frontend/qrcode.js:928-934 | The word of version 7 is 000111110010010100, the example of section 7.10. |
| BchDistance.NeverBlank | frontend/qrcode.js:920-926 | No format word leaves all its modules light. |
| QrSymbol.QrSymbol.SetupPositionProbePattern | frontend/qrcode.js:75-94 | The finder and its separator, clipped to the matrix, and no other module. |
| QrSymbol.QrSymbol.SetupTimingPattern | frontend/qrcode.js:116-131 | The undecided modules of the timing lines, alternating. |
| QrSymbol.QrSymbol.DrawAdjust | frontend/qrcode.js:148-160 | One alignment pattern. |
| QrSymbol.QrSymbol.SetupPositionAdjustPattern | frontend/qrcode.js:133-162 | The alignment patterns whose centre is not in a finder, and no other. |
| QrSymbol.QrSymbol.SetupTypeInfo | frontend/qrcode.js:179-214 | Both copies of the format word of level and mask, and the dark module, and nothing else. |
| QrSymbol.QrSymbol.SetupTypeNumber | frontend/qrcode.js:164-177 | Both copies of the version word, and nothing else. |
| QrSymbol.QrSymbol.MapData | frontend/qrcode.js:216-265 | The message, masked, along the path; the loop terminates. |
| QrSymbol.QrSymbol.DrawFrame | frontend/qrcode.js:43-67 | Exactly the reserved modules are decided, and all function patterns are in place. |
| QrSymbol.QrSymbol.MakeImpl | frontend/qrcode.js:43-73 | Frame and message together. |
| Capacity.ExactRoom | frontend/qrcode.js:216-265 | In every version the regions do not overlap, and the modules outside of them on the path are exactly as many as the raw modules of the version: the code words and at most seven bits more. |
| Capacity.CoverIs | frontend/qrcode.js:57-72 | The rectangles that are counted hold the reserved modules and nothing else. |
| QrCode.CreateData | frontend/qrcode.js:332-384 | The message of the segments, or an exception exactly for illegal or too long data. |
| QrCode.ReadDrawn | frontend/qrcode.js:43-73 | A symbol that is drawn from the message of the segments reads back to them, from its modules alone; the reader counts off the path and takes the mask from its tile. |
| QrCode.NothingUndecided | frontend/qrcode.js:216-265 | No module stays null. |
| QrCode.Finished | frontend/qrcode.js:43-73 | Placement leaves every function pattern and both words in their colours. |
| QrCode.Make | frontend/qrcode.js:43-73 | The whole encoder at a given version, level and mask: exact condition of refusal, the message of the segments in the modules, and reading back. |
| QrCode.ChooseVersion | frontend/qrcode.js:424-450 | The least version below 40 that has room, else 40. |
| QrCode.GetBestMaskPattern | frontend/qrcode.js:96-114 | The first mask of least cost among the eight trial drawings of the message. |
| QrCode.TrialIsUnique | frontend/qrcode.js:43-73 | Message and mask determine every module of a trial drawing: format, version and dark modules are light in it. |
| QrCode.MakeLeast | frontend/qrcode.js:424-453 | Refused exactly when no version has room or a character is illegal; else the least version, the first mask of least cost among the trial drawings for the message of these segments, and reading back. |
| Correction.OneBuffer | frontend/qrcode.js:267-330 | Blocks with at most half as many wrong words as parity words come from one message only. |
| Correction.DamagedSymbol | frontend/qrcode.js:43-73 | Two drawn symbols that agree with a damaged grid in all but three modules of the format word, and in all but half as many words of each block as it has parity words, have the same level, mask and segments. |
| Correction.DamagedIsReceived | frontend/qrcode.js:305-327 | However a symbol is damaged, its words are read and dealt out to blocks of their sizes. |
| QrText.DefaultBytes | frontend/qrcode.js:737-748 | The loop of the default conversion keeps the low byte of every code unit. |
| QrText.LatinIff | frontend/qrcode.js:737-748 | It keeps the text exactly when every code unit is below 256. |
| QrText.TextReads | frontend/qrcode.js:386-411 | What comes back from the symbol of a text, for both conversions and any string. |
| QrText.MakeText | frontend/qrcode.js:386-453 | From a text to its symbol: exact condition of refusal; with the default the text is read back exactly when its units are below 256, with UTF-8 whenever it is well-formed. |
| Base64.Base64EncodeOutputStream.WriteByte | frontend/qrcode.js:1909-1919 | The bits of the text and the pending ones are the bits of the bytes. |
| Base64.Base64EncodeOutputStream.Flush | frontend/qrcode.js:1921-1936 | The text encodes the bytes, with zero bits and padding (section 4 of RFC 4648). |
| Base64.Base64DecodeInputStream.Read | frontend/qrcode.js:1958-1987 | One read of any text, with its exceptions. |
| Base64.ReadsBack | frontend/qrcode.js:1879-2006 | Reading the text of the bytes gives the bytes and then -1 for ever, and never throws. |
| Base64.IsBase64Unique | frontend/qrcode.js:1879-2006 | A text is the text of one byte sequence only. |
| Base64.EncodeAll | frontend/qrcode.js:2233-2238 | The loop of the data URL encodes all its bytes. |
| Base64.SpacesAre | frontend/qrcode.js:1958-1987 | The characters that the decoder skips are the 25 white space characters of ECMAScript. |
| Base64.ThereAndBack | frontend/qrcode.js:1879-2006 | Encoder and decoder objects together: the bytes, then -1, no exception. |
| Utf8.OctetsDecode | frontend/qrcode.js:2257-2278 | The octets of a code point are its shortest form and decode to it (section 4 of RFC 3629). |
| Utf8.TakeOne | frontend/qrcode.js:2257-2279 | One round of the loop, with its shifts and masks. |
| Utf8.ToUtf8Array | frontend/qrcode.js:2254-2282 | The octets of the code points that the loop takes, for every string. |
| Utf8.DecodeTranscoded | frontend/qrcode.js:2254-2282 | The octets of any string at all are well-formed UTF-8. |
| Utf8.RoundTrip | frontend/qrcode.js:2254-2282 | The octets of a well-formed string decode to its code points. |
| Utf8.Injective | frontend/qrcode.js:2254-2282 | Different well-formed strings have different octets. |
| Utf8.RepairedIff | frontend/qrcode.js:2268-2272 | Pairing each surrogate with what follows changes nothing exactly in a well-formed string. |
| Utf8.SameOctets | frontend/qrcode.js:2254-2282 | Two strings have the same octets exactly when that pairing makes them equal. |
| Utf8.IllFormedCollides | frontend/qrcode.js:2268-2272 | A string is ill-formed exactly when its repaired form is another string with the same octets. |
| Utf8.LoneSurrogate | frontend/qrcode.js:2268-2272 | A concrete collision. |
| History.StacksAreBounded | frontend/investigation.js:426-448 | Undo and redo stacks together hold 40 snapshots at most, in every run. |
| History.Moves | frontend/investigation.js:437-448 | Undo and redo keep the timeline and move the position by one, within its ends. |
| History.SameHistory | frontend/investigation.js:426-448 | Timeline and position determine board and stacks. |
| History.BackWhereItBegan | frontend/investigation.js:437-448 | Any undos and redos in any order restore everything exactly when they end at the position where they began. |
| History.UndoRedo | frontend/investigation.js:437-448 | k undos and then k redos restore board and both stacks exactly when there were k snapshots, or nothing to redo before. |
| History.RedoUndo | frontend/investigation.js:437-448 | The same for k redos and then k undos. |
| History.Edits | frontend/investigation.js:426-431 | After any edits the undo stack holds the states before, up to 40 of them. |
| History.EditsUndone | frontend/investigation.js:426-442 | k undos after any edits lead to the state before the last k of them. |
| Board.SaveRestored | frontend/investigation.js:399-435 | Restoring a saved board and saving it again gives the same. |
| Board.NodeIds | frontend/investigation.js:281-289 | A node adds its cleaned id, unless that is empty, and nothing else. |
| Board.NodeKeepsUnique | frontend/investigation.js:281-289 | Node ids stay unique. |
| Board.EdgeLinks | frontend/investigation.js:290-303 | An edge adds its ordered pair of ends, unless it is a loop. |
| Board.EdgeKeepsTidy | frontend/investigation.js:290-303 | No loop and no repeated ordered pair appears. |
| Board.MergeIdempotent | frontend/investigation.js:494-505 | Merging the same board a second time changes nothing. |
| Board.MergeIsUnion | frontend/investigation.js:494-505 | Merging yields the unions of ids and of links, and keeps the board tidy. |
| Board.MergedCount | frontend/investigation.js:499-502 | As many nodes are added as there are ids that are new. |
| BoardMerge.MergedNodesAre | frontend/investigation.js:494-505 | After a merge every old node is as it was but for its root flag; every new one has the first 48 characters of the caption and the type of the first item with its id, is a root exactly when an item with its id is, and has nothing else yet. |
| BoardMerge.MergedEdgesAre | frontend/investigation.js:494-505 | Every old edge is as it was; every new one has the relation of the first item with its ends and was not drawn by hand. |
| BoardMerge.AddedNodeIs | frontend/investigation.js:281-289 | The same of one node that is added. |
| Board.MergedCloses | frontend/investigation.js:494-505 | A merge leaves no edge without its ends if and only if every edge that is no loop has its ends among the ids of both boards. |
| Board.UntrimmedEnd | frontend/investigation.js:281-303 | Ids of nodes are trimmed and ends of edges are not, so an untrimmed id leaves an edge without its end. |
| Board.RemovedIs | frontend/investigation.js:906-914 | Removing takes away the id and the edges at it, nothing else; it keeps the board tidy, and every edge with both its ends if that was so before. |
| Board.InvestigationBoard.NodeById | frontend/investigation.js:280 | The first node of the id. |
| Board.InvestigationBoard.AddNode | frontend/investigation.js:281-289 | The new graph, where the node is, and that tidiness and the renderer's numbers are kept. |
| Board.InvestigationBoard.AddEdge | frontend/investigation.js:290-303 | The new graph, whether an edge was made, and that tidiness is kept. |
| Board.InvestigationBoard.Snapshot | frontend/investigation.js:426-431 | The snapshot is pushed, the oldest one dropped above 40, and the redo stack emptied. |
| Board.InvestigationBoard.RestoreState | frontend/investigation.js:432-436 | The board is what was saved. |
| Board.InvestigationBoard.UndoOnce | frontend/investigation.js:437-442 | One step back in the history; board and snapshots stay tidy. |
| Board.InvestigationBoard.RedoOnce | frontend/investigation.js:443-448 | One step forward in the history; board and snapshots stay tidy. |
| Board.InvestigationBoard.LoadBoard | frontend/investigation.js:570-582 | The stored board, with nothing to undo. |
| Board.InvestigationBoard.RemoveNode | frontend/investigation.js:906-914 | One edit that removes the node and its edges. |
| Board.InvestigationBoard.MergeBoard | frontend/investigation.js:494-505 | One edit that merges, the count of new nodes, and nothing at all when the answer is no board. |
| ShortestPath.BuildLists | frontend/investigation.js:169-176 | The adjacency lists are those of the visible edges, in both directions; fails exactly at an inherited name. |
| ShortestPath.VisibleIff | frontend/investigation.js:170-175 | An edge is visible if and only if each end is the id of a node, the first of which has a type that is not hidden. |
| ShortestPath.AllVisible | frontend/investigation.js:170-175 | With nothing hidden and all ends on the board every edge is visible. |
| ShortestPath.HideOne | frontend/investigation.js:170-175 | Hiding one more type takes away exactly the edges with an end of that type. |
| ShortestPath.FrontIsNear | frontend/investigation.js:177-187 | No path reaches an id in fewer steps than the search. |
| ShortestPath.Exhausted | frontend/investigation.js:188 | What has not been seen when the queue is empty cannot be reached. |
| ShortestPath.Expand | frontend/investigation.js:182-186 | The unseen neighbours are queued in the order of distance, over two levels at most. |
| ShortestPath.Search | frontend/investigation.js:177-187 | Terminates, whatever the names; follows the `length` of an inherited value where the start has one; what it has seen has its least distance. |
| ShortestPath.WalkBack | frontend/investigation.js:189-191 | The walk along the parents terminates and gives a simple path of the recorded length, over ids alone unless the search was misled. |
| ShortestPath.ShortestPath | frontend/investigation.js:167-192 | A simple path of minimum length over visible edges, or null when there is none, if and only if no visible edge and not the destination has an inherited name, and the start has not that of a function with parameters while `undefined` leads to the destination. Exactly when a TypeError is raised and when the walk leaves the table. |
| ShortestPath.Detour | frontend/investigation.js:177-187 | What a misled search reaches beyond the visible edges it reaches through `undefined`. |
| ShortestPath.HarmlessStart | frontend/investigation.js:167-192 | An inherited name of the start alone does no harm on a board where no visible edge ends in `undefined`. |
| ShortestPath.ArityIs | frontend/investigation.js:168-182 | The twelve inherited names, by the number of parameters of the functions they stand for. |
| ShortestPath.TwoNodes | frontend/investigation.js:167-192 | A board without edges on which a path is returned. |
| ReplayWindow.EncodeInjective | worker/voidaccess_worker.py:343 | Different texts have different octets. |
| ReplayWindow.MessageHasTimestamp | worker/voidaccess_worker.py:343 | Equal messages have equal timestamps. |
| ReplayWindow.MessageIsRequest | worker/voidaccess_worker.py:343 | With timestamp, verb and path on one line each, two messages are equal if and only if timestamps, upper-cased verbs, paths and bodies are. |
| ReplayWindow.NewlineInPath | worker/voidaccess_worker.py:343 | Why they must be lines: a newline in the path could as well begin the body. |
| ReplayWindow.SignatureIsBound | worker/voidaccess_worker.py:333-359 | A request with the signature of an authentic one is accepted only with the same timestamp, verb, path and body, unless the code collides. |
| ReplayWindow.WindowIs | worker/voidaccess_worker.py:341 | The window is the 60 seconds before and after the timestamp, ends included. |
| ReplayWindow.AsciiIff | worker/voidaccess_worker.py:345 | The texts that `compare_digest` takes are those whose characters are one octet each. |
| ReplayWindow.Verifier.VerifyRequest | worker/voidaccess_worker.py:333-359 | Exactly when a request is accepted, when an exception is raised, and the table afterwards. |
| ReplayWindow.TableIsBounded | worker/voidaccess_worker.py:350-358 | The table holds 1024 signatures at most, in every run. |
| ReplayWindow.Remembered | worker/voidaccess_worker.py:351-358 | An accepted signature is in the table if and only if no call after it in the order of the lock has swept with a reading more than 120 seconds later. |
| ReplayWindow.AcceptedAgain | worker/voidaccess_worker.py:341-359 | Exactly when an accepted signature is accepted again: a genuine call, a sweep of more than 120 seconds later by it or before it, and room in the table. |
| ReplayWindow.ReplayNeedsLateSweep | worker/voidaccess_worker.py:341-359 | A second acceptance needs a sweep, by that call or one before it in the order of the lock, with a reading after the window of the timestamp. |
| ReplayWindow.ReplayIsLate | worker/voidaccess_worker.py:341-359 | When the lock is taken in the order of the readings, a second acceptance happens only in a call whose own second reading is outside the window. |
| ReplayWindow.NoReplay | worker/voidaccess_worker.py:341-359 | When the lock is taken in the order of the readings and the two readings of each call are one instant, no signature is accepted twice. |
| ReplayWindow.OvertakenAccepts | worker/voidaccess_worker.py:350-358 | A run with one instant for every call that accepts a request twice, inside its window, because another call reads the clock later and takes the lock first. |
| ReplayWindow.LateReadAccepts | worker/voidaccess_worker.py:341-358 | For every acceptable request and every delay, however small, there is a run that accepts it twice. |
| Normalizer.Normalize | worker/voidaccess_worker.py:205-269 | The loops with their breaks compute the report of the specification, exceptions included. |
| Normalizer.NormalizeRows | worker/voidaccess_worker.py:241-260 | The loop over the relationships, likewise. |
| ReportMeaning.EntityReported | worker/voidaccess_worker.py:205-239 | Completeness: in any report an entity that names a candidate, before 250 findings and repeating none of them, is reported with its kind, value and source, its confidence and its dates, right behind the findings before it. |
| ReportMeaning.RowsReported | worker/voidaccess_worker.py:241-260 | The relationships of any report are exactly those of the rows that join two ids, in order, up to 500; the first id gives the source and the second the target. |
| ReportMeaning.IdsStand | worker/voidaccess_worker.py:209-237 | An id stands for the value last recorded under it. |
| ReportMeaning.FirstItemsAre | worker/voidaccess_worker.py:206-243 | Only the first 2000 entities and rows are looked at. |
| ReportMeaning.CandidateIff | worker/voidaccess_worker.py:214-222 | Which fields name which candidate, both ways. |
| ReportMeaning.NamesIff | worker/voidaccess_worker.py:184-202 | Secrets become labels, addresses hosts, wallets and mapped types keep their value, and nothing else is reported. |
| ReportMeaning.SensitiveIff | worker/voidaccess_worker.py:120-135 | A type names a secret if and only if one of the twelve markers occurs in it. |
| ReportMeaning.MappedIff | worker/voidaccess_worker.py:62-97 | The table of types, read from the kinds. |
| ReportMeaning.WalletIff | worker/voidaccess_worker.py:99-115 | The types that are wallets. |
| ReportMeaning.SourceIs | worker/voidaccess_worker.py:168-181 | The source is the name before the first comma or its host, the host of the link, or the worker. |
| ReportMeaning.TextIff | worker/voidaccess_worker.py:144-152 | Which text of a field is taken. |
| ReportMeaning.ConfidenceIff | worker/voidaccess_worker.py:160-165 | The confidence is the nearest number from 0 to 1. |
| ReportMeaning.DateIff | worker/voidaccess_worker.py:155-157 | A date is a year, a year and month, or a day. |
| Normalizer.EntityIsNormalized | worker/voidaccess_worker.py:184-202 | Every type that is returned is a normalized one. |
| Normalizer.StepKeepsState | worker/voidaccess_worker.py:211-239 | Each round keeps the keys distinct and the ids bound to values of findings. |
| Normalizer.RowsAreRelationships | worker/voidaccess_worker.py:241-260 | Every relationship joins values of findings, has a well-formed type and a confidence between 0 and 1. |
| Normalizer.FirstSources | worker/voidaccess_worker.py:262 | The sources are strictly sorted, those of the findings, and the first 64 of them. |
| Normalizer.Closure | worker/voidaccess_worker.py:205-269 | Whatever the raw report: 250 findings at most with distinct keys, 500 relationships at most, all about findings, and sorted sources. |
| Normalizer.SameCandidate | worker/voidaccess_worker.py:184-188 | What a secret becomes does not depend on its value. |
| Normalizer.Provenance | worker/voidaccess_worker.py:205-269 | Every finding of any report stems from an entity of it; of a secret nothing gets into its kind and value but the label of the type. |
| Normalizer.SecretsAreErased | worker/voidaccess_worker.py:205-269 | Two raw reports that differ only in the values of secrets, equally valid, are normalized to the same report. |
| Normalizer.ErasedExactly | worker/voidaccess_worker.py:205-269 | When the value of one secret changes inside an arbitrary report, and its key is new there, comes up nowhere later and the limit is not reached, the outputs are equal if and only if both values are valid or neither is. |
| Normalizer.KeyTells | worker/voidaccess_worker.py:205-239 | The key of such a secret is among the findings if and only if its value is valid. |
| Normalizer.RepeatedSecretHides | worker/voidaccess_worker.py:205-239 | Why the key may not come up later: the same secret once more makes both outcomes equal. |
| JobSlot.InvHolds | worker/voidaccess_worker.py:425-439 | The invariant of lock, slot, processes and cancellations, in every interleaving. |
| JobSlot.OneProcess | worker/voidaccess_worker.py:425-439 | At most one investigation process runs, in every interleaving in which no `killpg` after a timeout fails on a running process. |
| JobSlot.FailedKillOverlaps | worker/voidaccess_worker.py:429-439 | Whenever a process is waited for, a `killpg` that fails on it lets the next job start a second process beside it. |
| JobSlot.SlotEmptyWhenFree | worker/voidaccess_worker.py:425-439 | While the job lock is free the slot is empty, and under the same condition nothing runs. |
| JobSlot.CancelHitsItsOwn | worker/voidaccess_worker.py:505-521 | A cancellation only reaches a process started for the job it names. |
| JobSlot.CancelFinds | worker/voidaccess_worker.py:511-512 | A cancellation finds a process exactly when one is published for that job. |
| JobSlot.CancelAnswered | worker/voidaccess_worker.py:505-521 | In every run a cancellation is answered with 404, or with 202 once it has reached a process of its job, and with nothing else. |
| JobSlot.CancelReaches | worker/voidaccess_worker.py:511-517 | One that finds the process of its job published and running reaches it and is answered with 202. |
| JobSlot.CancelCanMiss | worker/voidaccess_worker.py:417-427 | A run in which a job that runs escapes its cancellation. |
| ExportJobs.InvHolds | Sources/App/Controllers/ExportJobController.swift:87-120 | The invariant of lock, counts, rows and flags, in every interleaving. |
| ExportJobs.QuotasHold | Sources/App/Controllers/ExportJobController.swift:87-120 | Outstanding jobs stay within the limit, and the rows created in any 24 hours within the daily limit. |
| ExportRetention.AdmissionExact | Sources/App/Controllers/ExportJobController.swift:87-120 | A request that is not disturbed creates its job if and only if both counts are below their limits, and else changes no job. |
| ExportJobs.TerminalStays | Sources/App/Controllers/ExportJobController.swift:215-244 | No step changes a terminal job, but for deleting it. |
| ExportJobs.CancelIsFinal | Sources/App/Services/ExportJobWorker.swift:288-320 | A job whose cancellation was accepted is never completed afterwards. |
| ExportJobs.AcceptedIsFinal | Sources/App/Controllers/ExportJobController.swift:215-244 | In every run, from the request whose cancellation is accepted on, the job is flagged and not completed. |
| ExportJobs.LoggedIsBounded | Sources/App/Controllers/ExportJobController.swift:104-110 | All creations of any 24 hours stay within the daily limit when no row of the last 24 hours is missing at an admission. |
| ExportRetention.Kept | Sources/App/Services/ExportJobWorker.swift:430-451 | Rows that are kept for more than 24 hours are enough for the daily limit to bound creations, in every run. |
| ExportRetention.DeletionIsForgotten | Sources/App/Controllers/ExportJobController.swift:104-110 | For any positive limits and any age up to 24 hours at which rows may be deleted, a run that creates one job more than the daily limit within 24 hours. |
| ExportRetention.RetentionExact | Sources/App/Controllers/ExportJobController.swift:104-110 | The daily limit bounds the creations of every 24 hours in every run if and only if rows are kept for more than 24 hours. |

## Left out

- JavaScript numbers: array slots that were never set read as 0, which is what `^` and `>>>` make of them; the
  bit packers and the format and version words, for which `data << 10` and `data << 12` would lose bits from 2^22 and
  2^20 on, are modelled on unbounded naturals (the source passes less than 32 and 64), and the base64 registers on
  32 bits.
- QrPolynomial.NewPolynomial: a leading slot that was never set is stripped here and kept by the source, where
  `num[offset] == 0` (line 1189) is false of it. Only the shift leaves such slots, so they are the last ones, as many
  as the divisor has coefficients but one; the division has then ended, and right-alignment puts the same zeros
  into the parity.
- QrCode.Make: versions are 1 to 40 and masks 0 to 7, as the code itself uses them; other numbers end in a table
  lookup that is undefined.
- `qrKanji`, `createStringToBytes`, the HTML, SVG, ASCII and canvas output, and the GIF headers around the raster:
  none of them has a law beyond its own text.
- QrCode.GetBestMaskPattern: `getLostPoint` is any function of the modules; what its four rules count is not
  modelled.
- CodeDistance.UniqueCorrection: few enough errors leave one codeword, but an algorithm that finds it is not part of
  the source.
- GifRaster.GetLzwRaster: code sizes are 2 to 11 and the pixels within them; the source uses 2. The table is keyed
  by strings of characters below 65536, which the model keeps as sequences of numbers; the inherited names are the
  twelve that every engine has.
- ShortestPath.ShortestPath: plain objects are maps with the twelve names inherited from Object.prototype, and an
  inherited value counts through its `length` alone; when the destination has such a name the result is `Astray`,
  and how the walk then runs is not modelled further.
- Board.InvestigationBoard.MergeBoard: the request to the server, the drawing and the status lines are left out; the
  JSON text of a snapshot is the value it denotes, with coordinates that are numbers or absent.
- ReplayWindow.NoReplay: calls are listed in the order in which they take the lock, and the second reading of a call
  is not before its first; HMAC is any function without collisions among the messages of the run.
- Normalizer.Normalize: Python's string methods, its URL parser and `float` are arbitrary functions of their
  argument; the set of sources is sorted by code points.
- JobSlot.CancelHitsItsOwn: processes are objects that are never reused, so the reuse of a process id by the
  operating system between `poll` and `killpg` is not modelled; job ids are in canonical form, as the worker checks.
- ExportJobs.QuotasHold: one user, on a database that locks the row; dialects without `FOR UPDATE` are left out.
  Leases and attempts of the worker are abstracted to its guarded transitions, and a job is not created earlier
  than the clock reading of its request.
- Rendering, DOM code, GraphML import, downloads, the other controllers, HMAC and encryption themselves, subprocess
  and file handling: user interface, or plumbing over services that are not part of this model.
