# JPEG decoder: a verified model

This project models the JPEG decoder of the repository (`jpeg/`, an IJG 6b decoder for
ITU-T T.81) in Dafny and proves what its parts promise each other. Code that updates state in
place is modelled by classes and methods with the source's own fields, loops and branches; what
it has to achieve is stated by functions and predicates over values, and the main results are
lemmas about those. Error exits are failure results that end the run.

## Entropy decoding

* `Bits` - shifts, masks and bit strings. `HuffmanTable` - validation of a table, the canonical
  code, the derived lookup tables. `ByteStream` - the file as unstuffed segments between markers,
  restart resynchronisation. `BitReader` - the 32-bit buffer over a source of which only a prefix
  has been delivered.
* `Coefficients` - blocks and the edits that decoding makes to them. `EntropySpec` - what one MCU
  means: its edits, the bits it takes and the state after it, for sequential scans and the four
  progressive kinds. `Refinement` - the undo list of AC refinement and why a retry does not show.
  `EntropyDecoder` - the decoders themselves, refined against that.
* `ScanGeometry`, `CoefController` - which blocks an MCU names, and reading a scan whose bytes
  arrive in any pieces. `BitPlanes`, `PointTransform` - what a progression does to the bits of a
  coefficient.
* `BaselineEncoder`, `ProgressiveEncoder`, `ScanEncoder` - the encodings of sections F.1.2 and G.1.2
  of T.81, written from the standard, for sequential scans and the four progressive kinds; EOB runs
  are of any length the encoder chooses. `RoundTrip` - decoding undoes them, restart intervals and byte
  stuffing included. `Encodable` - such encodings, and accepted tables for them, exist for every image of
  eight-bit samples.
* `ScanReader` - from behind a scan header to the end of the scan: the controllers set up, and any scan
  read in pieces. `Progression` - scan after scan, a progressive file builds its image up exactly.
  `ProgressionCheck` - the decoder's own record of what has been sent, and what its warnings mean.
* `Bands`, `Delivery` - what legal runs and sizes are, and what the bits of an MCU deliver to each coefficient.
  `ScanPlanes`, `ProgressionPlanes` - for whatever bytes, what each kind of scan, and a whole progression,
  makes of the coefficients: the values received with the delivered bits appended. `EncodedBands` - encoded
  scans are legal in this sense. `Overflow` - which values survive the point transform in 16 bits.
* `WorkedExamples` - streams written out in bytes, and what decoding makes of them.

The state of a decoder between MCUs is `EntropySpec.State`: the segment it is in and how many of
its bits are used, or the restart that is due. `Step` is one MCU, and `Run` a scan. The claim that
ties everything together is that every call of `DecodeMcu`, suspended or not, leaves `Step` of the
present state and coefficients what it was; so the final result of a scan is a function of the file
alone (`ReadScan`), and for an encoded scan it is the image that was encoded, to the accuracy of the scan
(`DecodeEncodedScan`). After a legal progression it is the image to the last bit (`ImageRestored`); and a
whole file of encoded scans, driven through the input controller and the preload loop while its bytes
arrive in any pieces, ends with exactly that (`DecompressEncoded`). For bytes that come from no encoder, every
coefficient is still exactly what the bits spell: the value received first with the delivered bits appended
(`AcSpelled`, `DcSpelled`), as long as runs stay in band and values fit.

## The other parts

* `InverseCmap`, `MedianCut` - two-pass colour quantisation: the cached nearest-colour search
  against brute force, and the boxes the colours come from.
* `OrthogonalColormap`, `FsDither`, `RangeLimit`, `OnePassQuantizer` - one-pass quantisation: the product
  colormap, Floyd-Steinberg dithering in one array against its two-row form, and the two together.
* `ContextRows` - the ring of pointer lists that presents row groups with context.
* `VirtualArray` - window, backing store and lazy zeroing against a flat array.
* `Pacing` - the input controller over the real coefficient controller, and the loops that force input;
  it suspends exactly when the bytes it needs have not been delivered. `Decompression` - whole files.
* `OutputGeometry` - DCT scaling and row groups. `MergedUpsample` - fused upsampling and colour
  conversion against the separate routines.

## Where the code and its comments differ

* Context rows: the comments of `jpeg/jdmainct.c` (lines 65-67) promise a whole row group of real or
  duplicated rows below every group. The group postponed from the last iMCU row but one is
  presented before the bottom pointers are set, so when the last iMCU row has fewer rows than a row
  group, the far rows of its context are padding. `RightView` says so exactly: the group itself and
  the nearest row on either side are always right, the whole context if and only if
  `AboveShortEnd` does not hold; `ShortEndHappens` is an instance.
* Point transform: the values of a first pass are stored shifted by Al in 16 bits, which the code does
  not check. A value of size s (the low half of its Huffman symbol) is stored as sent, and every later
  correction moves it away from zero as it should, if and only if s + Al <= 15 (`SizeGuard`; in terms of
  the value, `ArrivesExactly`; for DC, `DcArrivesExactly`). Where this fails the sign is lost: at Al = 13
  both 4 and -4 are stored as -32768 (`FirstOverflows`; `DcFirstOverflows` for DC), and the next refinement turns that into 28672
  (`SecondFlips`). Where it holds, all planes arrive (`AcPlanesStay`).

## Model

| member | source | states |
|---|---|---|
| HuffmanTable.MakeDerivedTbl | jpeg/jdhuff.c:170-288 | A length-count table is accepted exactly when it has at most 256 symbols, a Kraft sum strictly below 1 and, for DC, categories 0 to 15; the derived tables then decode its canonical code |
| HuffmanTable.KraftMeansFit | jpeg/jdhuff.c:218-233 | The codes of every length fit, with the all-ones string left over, exactly when the Kraft sum is below 1 |
| HuffmanTable.CodeIsPrefixFree | jpeg/jdhuff.c:218-233 | No code word of an accepted table is a prefix of another |
| HuffmanTable.NoWordAllOnes | jpeg/jdhuff.c:225-229 | No code word of an accepted table consists of ones only |
| HuffmanTable.CanonicalCode | jpeg/jdhuff.c:202-233 | The p-th code word has a length not below the one before; it is that one plus 1, extended by zeros to its own length, the first being 0, and stands for the p-th listed symbol |
| HuffmanTable.OneCodePerSlot | jpeg/jdhuff.c:253-273 | Two codes never claim the same lookahead slot, so the fill writes each slot at most once |
| HuffmanTable.FillLookahead | jpeg/jdhuff.c:253-273 | Each of the 256 slots names the one short code that starts its bits, or none if there is none |
| HuffmanTable.DecodesUniquePrefix | jpeg/jdhuff.c:419-455 | If a code word starts the stream, decoding takes exactly its length and yields its symbol |
| HuffmanTable.NoCodeMeansNoWord | jpeg/jdhuff.c:437-449 | Seventeen bits are taken exactly when no code word starts the stream |
| HuffmanTable.MaxCodeTest | jpeg/jdhuff.c:437-441 | The comparison with the largest code of each length stops at the length of the code that starts the stream |
| HuffmanTable.LookaheadTest | jpeg/jdhuff.h:198-218 | A lookahead entry gives the length and symbol of the code that starts the stream; an empty one means it is longer than 8 bits |
| BitReader.BitReader.HuffDecode | jpeg/jdhuff.h:198-218 | By lookahead, from 9 bits or from 1 bit, the result is the symbol whose code starts the segment, and exactly its length is consumed; or the bytes ran out and nothing permanent changed |
| BitReader.BitReader.HuffDecodeSlow | jpeg/jdhuff.c:419-455 | Bit-serial decoding from any length not above the code's own finds the same symbol |
| BitReader.BitReader.FillBitBuffer | jpeg/jdhuff.c:313-411 | The buffer stands at the same bit of the same unstuffed segment and holds the bits asked for, zeros past its end; it fails only for want of bytes before any marker, and then changes nothing |
| BitReader.BitReader.NextDatum | jpeg/jdhuff.c:332-379 | One unstuffed byte or the next marker, exactly if the source has delivered all of it |
| BitReader.BitReader.TakeBits | jpeg/jdhuff.h:160-173 | The next n bits of the zero-extended segment; starved exactly when they reach past it |
| BitReader.LoadByte | jpeg/jdhuff.c:381-385 | Shifting a byte into the 32-bit register extends the buffered window of the segment by its bits |
| BitReader.Starve | jpeg/jdhuff.c:392-406 | Zero fill keeps the buffer a window of the zero-extended segment |
| BitReader.DropBits | jpeg/jdhuff.h:166-173 | Shift and mask deliver the next n bits and leave a window n bits further on |
| BitReader.BitReader.NextMarker | jpeg/jdmarker.c:895-939 | The next marker and the position after it, however often it was interrupted on the way |
| BitReader.BitReader.ResyncToRestart | jpeg/jdmarker.c:1216-1259 | Ends where resynchronisation over the whole file would; suspension does not change that outcome |
| BitReader.BitReader.ReadRestartMarker | jpeg/jdmarker.c:1137-1164 | The restart comes out as the file determines; suspension leaves that open and unchanged |
| ByteStream.RestartIsResync | jpeg/jdmarker.c:1147-1159 | Swallowing the expected marker is what resynchronisation would do with it |
| ByteStream.UnstuffStuffed | jpeg/jdhuff.c:338-370 | A stuffed segment closed by a marker reads back as its bytes, that marker and the position after it |
| ByteStream.BytesMean | jpeg/jdhuff.c:338-370 | A byte below 255 stands for itself, 255 followed by 0 for 255, and 255 followed by anything else below 255 is that marker |
| ByteStream.RecoveryByDistance | jpeg/jdmarker.c:1216-1259 | By how far the marker found is ahead of the expected restart: one or two ahead is left unread, one or two behind is skipped, any other restart discarded, the expected one included; markers below SOF0 are skipped, all others left unread |
| ByteStream.LostIntervals | jpeg/jdmarker.c:1216-1259 | If one or two restart markers are lost, the restarts that are missing each find an empty segment that stands before the marker found, and the restart that marker belongs to begins right behind it |
| ByteStream.RepeatedInterval | jpeg/jdmarker.c:1216-1259 | A restart marker one or two behind the expected one is skipped with the data after it, up to the next marker, which is then judged in its turn |
| Coefficients.TouchUpOnce | jpeg/jdphuff.c:584-592 | A correction guarded by its bit, made twice, changes nothing and never makes a coefficient zero |
| Coefficients.Absorb | jpeg/jdphuff.c:649-654 | Edits made before are absorbed when all edits of the MCU are made over them |
| Coefficients.NaturalOfZigzag | jpeg/jutils.c:56-78 | The two tables are inverse to each other, so the zigzag order is a permutation of the 64 positions |
| Coefficients.NaturalIsZigzag | jpeg/jutils.c:75-86 | The order is the zigzag path from position 0 to 63: along every diagonal, upwards where row plus column is even and downwards where it is odd, turning at the edges of the block; the 16 entries past the end give 63 |
| Refinement.UndoneIsCorrected | jpeg/jdphuff.c:649-654 | Zeroing the listed positions leaves the blocks as if only the corrections had been made |
| Refinement.CorrectionsKeepPattern | jpeg/jdphuff.c:584-592 | After undoing, the block is nonzero exactly where it was before the MCU |
| Refinement.RetryIsInvisible | jpeg/jdphuff.c:512-655 | Decoding an abandoned MCU again, over whatever it stored, has the outcome and the final blocks of one uninterrupted decoding |
| EntropyDecoder.EntropyDecoder.DecodeBaseline | jpeg/jdhuff.c:538-649 | A sequential MCU makes exactly its specified edits and state change, or is abandoned with an initial part of the edits made and no permanent state changed |
| EntropyDecoder.EntropyDecoder.DecodeDcFirst | jpeg/jdphuff.c:307-370 | The same for a DC first pass |
| EntropyDecoder.EntropyDecoder.DecodeAcFirst | jpeg/jdphuff.c:378-454 | The same for an AC first pass, EOB runs included |
| EntropyDecoder.EntropyDecoder.DecodeDcRefine | jpeg/jdphuff.c:463-505 | The same for a DC refinement |
| EntropyDecoder.EntropyDecoder.DecodeAcRefine | jpeg/jdphuff.c:512-655 | An AC refinement makes its edits; when abandoned, only corrections that the retry will repeat remain and the nonzero history is intact |
| EntropyDecoder.EntropyDecoder.ProcessRestart | jpeg/jdhuff.c:489-520 | A due restart starts the fresh segment the file determines, with predictions and run count zero; suspended, it is still due with the same outcome |
| EntropyDecoder.EntropyDecoder.DecodeMcu | jpeg/jdhuff.c:538-649 | On success one step of the scan, and the marker reader would go on at the end of the segment of that MCU; on suspension whatever changed makes no difference to that step; with all bytes there and the segment terminated it succeeds |
| CoefController.CoefController.ConsumeData | jpeg/jdcoefct.c:266-326 | What the scan will finally yield does not change with any call; a complete scan of which all bytes are there is not suspended |
| CoefController.CoefController.ReadScan | jpeg/jdcoefct.c:266-326 | Whatever pieces the bytes arrive in, a finished scan has the coefficients and state it would have had with all bytes at once, and the reader stands before the marker that closes its last segment; a well-formed one finishes once they have arrived |
| CoefController.ClosingLater | jpeg/jdmarker.c:895-939 | From any bytes, restarts and resynchronisation included, the marker that closes a scan lies behind where the scan began |
| CoefController.CoefController.BlocksOfMcu | jpeg/jdcoefct.c:295-306 | The blocks gathered for an MCU are those of its row and column, in the order of InOrder: component after component as the scan lists them, and within a component row by row from the top and each row from the left |
| CoefController.CoefController.StartImcuRow | jpeg/jdcoefct.c:100-121 | The MCU rows of the iMCU row are counted right in interleaved and single-component scans, the last one included |
| CoefController.RowsAddUp | jpeg/jdcoefct.c:100-121 | The iMCU rows cut the MCU rows of a scan up without gap or overlap |
| ScanGeometry.CeilIs | jpeg/jutils.c:93-109 | The rounded-up quotient is the least number of multiples that reach |
| ScanGeometry.ComponentsAgree | jpeg/jdinput.c:101-131 | However the rounding is nested, all components have the same number of iMCU rows and columns, and their arrays are padded to exactly that many |
| ScanGeometry.IndexInjective | jpeg/jdcoefct.c:709-731 | Different blocks have different places in the arrays |
| ScanGeometry.ScanVisitsOnce | jpeg/jdcoefct.c:266-326 | A scan visits every block of a component as often as the component occurs in it, over the whole padded grid when interleaved and the unpadded one when not, and no other block |
| ScanGeometry.McuInside | jpeg/jdcoefct.c:295-306 | Every block an MCU names lies inside the arrays, one for each membership entry |
| ScanGeometry.McuInOrder | jpeg/jdcoefct.c:295-306 | Behind the blocks of the earlier components of the scan, the block of an MCU in line y and column x of a component with factors h by v is number y h + x, and is block (r v + y, c h + x) of that component; a single-component MCU is block (r, c) |
| ScanGeometry.BlocksCover | jpeg/jdinput.c:101-131 | The blocks of a component are the fewest of eight samples that cover it, where it has the fewest samples that cover its share of the image; and iMCU rows and columns are the fewest that cover the image |
| ScanGeometry.PerScanSetup | jpeg/jdinput.c:142-217 | Refuses exactly the interleaved scans of over four components or ten blocks; otherwise the last column and row hold what is left of each component |
| BaselineEncoder.SymbolComesBack | jpeg/jdhuff.c:419-455 | Decoding a code word gives its symbol and length back |
| BaselineEncoder.ValueComesBack | jpeg/jdhuff.c:463-481 | HUFF_EXTEND inverts the appended bits of any value of any category |
| BaselineEncoder.ReceivedSigned | jpeg/jdhuff.c:463-481 | Appended bits that begin with 1 are the value in binary; those that begin with 0 are the negative of the value with all bits flipped |
| BaselineEncoder.AcComesBack | jpeg/jdhuff.c:589-618 | Decoding run/size codes, ZRL and EOB assigns exactly the nonzero coefficients and ends after their bits |
| BaselineEncoder.McuComesBack | jpeg/jdhuff.c:562-640 | Decoding an encoded MCU assigns exactly its coefficients and leaves its DC values as predictions |
| BaselineEncoder.McuMade | jpeg/jdhuff.c:527-529 | In zeroed blocks those assignments make exactly the encoded blocks |
| PointTransform.DcRefined | jpeg/jdphuff.c:488-493 | Setting the delivered bit takes the DC coefficient from one accuracy to the next, and setting it again changes nothing |
| PointTransform.AcCorrected | jpeg/jdphuff.c:584-598 | A correction takes an AC coefficient with history from one accuracy to the next |
| PointTransform.AcNew | jpeg/jdphuff.c:563-571 | A coefficient without history becomes exactly 1 or -1 in the bit position being sent, or stays zero |
| ProgressiveEncoder.DcComesBack | jpeg/jdphuff.c:336-360 | Decoding a DC first MCU stores each DC value to the accuracy of the scan and leaves the shifted values as predictions |
| ProgressiveEncoder.EobComesBack | jpeg/jdphuff.c:430-437 | The code of an EOB run of any length up to 32767 gives that length back |
| ProgressiveEncoder.FirstComesBack | jpeg/jdphuff.c:416-441 | Decoding an encoded band assigns exactly its nonzero coefficients, ends after its bits and takes up the EOB run |
| ProgressiveEncoder.RefineComesBack | jpeg/jdphuff.c:555-637 | Decoding an encoded refinement, where correction bits are interleaved with new coefficients, runs of zeros and EOB runs, corrects and creates exactly what the encoder sent |
| ProgressiveEncoder.RefineInRun | jpeg/jdphuff.c:615-637 | Inside an EOB run exactly the corrections of the block are taken |
| ScanEncoder.RefinedMade | jpeg/jdphuff.c:584-611 | Those edits take a block known to one bit less to the accuracy of the scan in its band, and change nothing else |
| ScanEncoder.McuReads | jpeg/jdphuff.c:307-655 | For a scan of any kind, decoding an encoded MCU gives its blocks the accuracy of the scan and leaves the EOB run and predictions the encoder is at |
| RoundTrip.SegmentRead | jpeg/jdhuff.c:538-649 | Decoding an encoded restart interval, of any kind of scan, sends its blocks, and the restart after it is seen |
| RoundTrip.ScanRead | jpeg/jdhuff.c:489-520 | Decoding an encoded scan, any restart interval and any bytes after it, yields its blocks and never lacks a marker |
| RoundTrip.IntervalAt | jpeg/jdmarker.c:1137-1164 | In the bytes of an encoded scan every restart interval is followed by FF and D0 plus its number modulo 8 |
| RoundTrip.EncodedScanComesBack | jpeg/jdcoefct.c:266-326 | Decoding an encoded scan of any kind, from its start, yields the encoded coefficients to the accuracy of the scan, leaves all others unchanged, enters no unterminated segment and ends before the marker right behind the data |
| EntropyDecoder.StartPass | jpeg/jdhuff.c:107-160 | The tables the scan uses are derived, or refused exactly if one is unacceptable; the decoder stands at the first bit of the segment behind the header |
| ScanReader.StartInputPass | jpeg/jdinput.c:275-283 | The controller begins where decoding the whole scan begins, so that its final result, and what closes it, are those of the uninterrupted scan |
| ScanReader.DecodeScan | jpeg/jdcoefct.c:266-326 | A scan read from behind its header in any pieces has, when finished, the coefficients of the uninterrupted scan; a terminated one finishes once all bytes are there |
| ScanReader.DecodeEncodedScan | jpeg/jdcoefct.c:266-326 | Reading an encoded scan of any of the five kinds finishes, with every block of the scan as it was encoded, to the accuracy of the scan, and every other as it was; what is met next is the marker that closes the scan, right behind its data |
| RoundTrip.ScanCovers | jpeg/jdcoefct.c:266-326 | The blocks that come back are those of the scan's grid, all of them and no others |
| RoundTrip.RestAscends | jpeg/jdcoefct.c:266-326 | A single-component scan names each of its blocks once, in ascending order |
| RoundTrip.RestAt | jpeg/jdcoefct.c:284-325 | The MCUs come row by row from the top, each row from the left: the MCU at a row and column stands in the list at the number of MCUs before it |
| RoundTrip.RunIsFold | jpeg/jdcoefct.c:284-325 | The controller's nested loops decode the list of MCUs in traversal order |
| Encodable.TablesExist | jpeg/jdhuff.c:202-288 | Validation accepts a DC and an AC table that code every symbol an image of eight-bit samples needs |
| Encodable.EncodingExists | jpeg/jdphuff.c:307-655 | Every image of eight-bit samples has an encoding as a scan of any kind, so what is proved about encoded scans covers all of them |
| Progression.ProgressionComesBack | jpeg/jdphuff.c:307-655 | After any legal progression of encoded scans in a file, read from zeroed coefficients, every coefficient has exactly the accuracy sent for it |
| Progression.ImageRestored | jpeg/jdphuff.c:307-655 | A progression that has sent everything to the last bit has restored the image |
| ProgressionCheck.StartPass | jpeg/jdphuff.c:122-168 | Exactly the senseless parameters are refused; otherwise the scan is recorded, and warned about unless it is the next in order for all its components |
| ProgressionCheck.RecordStaysRight | jpeg/jdphuff.c:157-168 | The record keeps telling how accurately every coefficient of every block of the image is known |
| ProgressionCheck.UnwarnedFollows | jpeg/jdphuff.c:160-166 | There is no warning exactly if refinements refine what is known to one bit less and first scans send what is unknown or was already complete, AC after DC |
| ProgressionCheck.CompleteIsRestored | jpeg/jdphuff.c:162-167 | Where the record shows precision 0 throughout, the blocks of the image have been restored |
| BitPlanes.Correction16 | jpeg/jdphuff.c:584-592 | A correction moves a coefficient away from zero by the weight of its bit, for every value but -32768 |
| Overflow.ArrivesExactly | jpeg/jdphuff.c:421-426 | A nonzero value x of an AC first pass is stored as sent and all later corrections move it away from zero, if and only if x shifted by Al lies strictly between -32768 and 32768 (or is -32768 with nothing to follow) |
| Overflow.SizeGuard | jpeg/jdphuff.c:418-426 | In terms of what the decoder has read: if and only if size plus Al is at most 15 |
| Overflow.DcArrivesExactly | jpeg/jdphuff.c:354-358 | A DC value arrives with all bits appended later if and only if it fits in 16 bits once it is shifted |
| Overflow.FirstOverflows | jpeg/jdphuff.c:421-426 | At Al 13 a first pass stores -32768 for 4 as for -4 |
| Overflow.DcFirstOverflows | jpeg/jdphuff.c:346-358 | At Al 13 a DC first pass that sends 4 stores -32768, as one that sends -4 does; the prediction is right for both |
| Overflow.SecondFlips | jpeg/jdphuff.c:621-634 | The next refinement turns that coefficient into 28672 |
| WorkedExamples.SentAsBytes | jpeg/jdhuff.c:338-370 | The bytes 08 35 28 FF 00 00 before an EOI marker, written out, are the bits of the first example |
| WorkedExamples.SequentialExample | jpeg/jdhuff.c:538-649 | From those bytes a sequential MCU with a flat code gets -202 as its DC value and 255 at position 16, and ends behind 40 bits |
| WorkedExamples.FirstExample | jpeg/jdphuff.c:378-454 | An AC first scan at Al 1 stores -254 as -508 at position 1 and begins an EOB run of which 260 more blocks follow |
| WorkedExamples.SecondExample | jpeg/jdphuff.c:512-655 | An AC refinement corrects 2 to 3 at position 1 and, over a run of one zero, puts -1 at position 16 |
| BitPlanes.RefinementKeeps | jpeg/jdphuff.c:512-655 | A refinement keeps the sign and all higher planes of a magnitude |
| Delivery.McuStores | jpeg/jdphuff.c:307-454 | In any MCU of a sequential, DC first or AC first scan, a coefficient that was zero becomes the value that the stream holds for it, found by following run/size codes and predictions |
| Delivery.TotalsOfDifferences | jpeg/jdhuff.c:562-640 | In any MCU of a sequential or DC first scan, the DC value of a block is the prediction of its component plus all differences that the MCU holds for that component up to the block; the prediction left for each component is the old one plus all of its differences |
| Delivery.McuTakes | jpeg/jdphuff.c:512-655 | In any MCU of an AC refinement whose runs stay in band, a coefficient is corrected by exactly its own correction bit, wherever codes, EOB runs and the other correction bits put it, or becomes new with its own sign bit, or stays |
| Delivery.TakenIs | jpeg/jdphuff.c:584-598 | In terms of magnitude and sign: the bit is appended to the magnitude, for every value but -32768 |
| ScanPlanes.ScanKeeps | jpeg/jdphuff.c:307-655 | From any bytes, a scan whose runs stay in its band changes only the coefficients it is about |
| ScanPlanes.FirstScanPlanes | jpeg/jdphuff.c:307-454 | From any bytes, a first scan at Al leaves multiples of 2 to the Al, in all blocks, where there were such or zeros |
| ScanPlanes.FirstScanStores | jpeg/jdphuff.c:307-454 | From any bytes whose runs stay in band, a first scan stores, where there was zero, exactly the value received for that coefficient, shifted by Al and cut to 16 bits |
| ScanPlanes.AcRefinementScanPlanes | jpeg/jdphuff.c:512-655 | From any bytes whose runs stay in band, every coefficient of an AC refinement scan takes exactly what the scan delivers to it: where the lower bits were clear, the delivered bit is appended to its magnitude and its sign kept or, if it was zero, set as delivered |
| ScanPlanes.DcRefinementScanPlanes | jpeg/jdphuff.c:463-505 | From any bytes, a DC refinement scan appends to every block it is about, in two's complement, the bit it delivers |
| ProgressionPlanes.AcHistory | jpeg/jdphuff.c:307-655 | Through any legal progression whose runs stay in band, an AC coefficient starts at the value received, shifted and cut to 16 bits; unless that is -32768, its values are refinements of each other, bit by bit, and the present one has exactly the magnitude bits and sign delivered; its accuracy is what has been sent |
| ProgressionPlanes.AcPlanesStay | jpeg/jdphuff.c:307-655 | If moreover the sizes fit, planes sent never change again between any two scans, planes not sent are clear, and the sign stays |
| ProgressionPlanes.AcSpelled | jpeg/jdphuff.c:307-655 | If moreover the sizes fit, an AC coefficient is exactly the value received first with all delivered magnitude bits appended, shifted to its accuracy |
| ProgressionPlanes.SpelledMagnitude | jpeg/jdphuff.c:584-598 | In magnitude that is the unsigned number spelled by the bits, and a sign once there never changes |
| ProgressionPlanes.SpelledSign | jpeg/jdphuff.c:563-571 | A coefficient that starts at zero has the sign that came with its first bit that is 1 |
| ProgressionPlanes.DcHistory | jpeg/jdphuff.c:307-505 | A DC coefficient is its first value with exactly the bits appended that the refinement scans have delivered, and the first value is the one received, shifted and cut to 16 bits |
| ProgressionPlanes.DcSpelled | jpeg/jdphuff.c:307-505 | If the value received fits in 16 bits once it is shifted, the coefficient is that value with those bits appended |
| EncodedBands.EncodedInBand | jpeg/jdphuff.c:416-637 | An encoded MCU has no run that leaves the band; the sizes of its shifted values fit if and only if its band does not hold -32768 |
| ProgressionPlanes.EncodedIsPossible | jpeg/jdphuff.c:307-655 | Every legal progression of encoded scans of distinct components keeps its runs in band and, if the image holds no AC coefficient -32768, its sizes fit, so that all this holds of it |
| InverseCmap.NearestIsCandidate | jpeg/jquant2.c:669-796 | Heckbert's criterion never loses a colour that is nearest to some cell of the box |
| InverseCmap.FindNearbyColors | jpeg/jquant2.c:669-796 | The candidates are exactly the colours no farther at best than every colour is at worst, in colormap order |
| InverseCmap.NextDist | jpeg/jquant2.c:824-869 | The increments are the exact differences of distances between adjacent cells |
| InverseCmap.BestIsNearest | jpeg/jquant2.c:798-870 | The first best candidate is the lowest-numbered of all nearest colours |
| InverseCmap.FindBestColors | jpeg/jquant2.c:798-870 | Every cell of the box gets its brute-force nearest colour |
| InverseCmap.ColorCache.FillInverseCmap | jpeg/jquant2.c:878-928 | The box of the cell is filled with nearest colours, and no other cell of the cache changes |
| InverseCmap.ColorCache.Pass2NoDither | jpeg/jquant2.c:938-969 | Every pixel becomes the lowest-numbered colour nearest to its cell's centre, whatever was looked up before |
| InverseCmap.NearestUnique | jpeg/jquant2.c:938-969 | That colour is unique, so the output does not depend on the order of pixels |
| InverseCmap.WeighedDist | jpeg/jquant2.c:669-796 | The distance of two colours is 4, 9 and 1 times the squares of their differences in red, green and blue |
| InverseCmap.DistAttained | jpeg/jquant2.c:669-796 | The least and largest distances of a colour from a box, of which the criterion is made, are those of points of that box |
| InverseCmap.CenterNear | jpeg/jquant2.c:938-969 | Every pixel lies within 4, 2 and 4 of the centre of its cell |
| MedianCut.PrescanRow | jpeg/jquant2.c:245-276 | Counts grow by the pixels of the row and stop at 65535 instead of wrapping to 0 |
| MedianCut.CountedNear | jpeg/jquant2.c:245-276 | The cell a pixel is counted in is the one whose centre lies within 4, 2 and 4 of it |
| MedianCut.UpdateBox | jpeg/jquant2.c:336-444 | The tightest box around the same used cells, with its volume and population |
| MedianCut.VolumeZero | jpeg/jquant2.c:416-430 | The volume vanishes for single cells only, so a box can be split if and only if it is positive |
| MedianCut.VolumeIsDist | jpeg/jquant2.c:416-430 | The volume is the weighted squared distance between the centres of opposite corners |
| MedianCut.FindBiggestColorPop | jpeg/jquant2.c:296-313 | The first splittable box of the largest population, none exactly if none is splittable |
| MedianCut.FindBiggestVolume | jpeg/jquant2.c:316-333 | The first box of the largest volume, none exactly if all volumes vanish |
| MedianCut.LongestAxis | jpeg/jquant2.c:474-493 | An axis that can be cut, the longest one, green winning ties and blue losing them |
| MedianCut.AxisIsLongest | jpeg/jquant2.c:474-493 | The axis has the largest extent after scaling by 16, 12 and 8 (cells of 8, 4 and 8 values, weights 2, 3 and 1); green is chosen over red and blue, and red over blue, when they are as long |
| MedianCut.HalvesUsed | jpeg/jquant2.c:494-516 | Any cut of a tight box leaves used cells on both sides, and together the same ones |
| MedianCut.BoxesAndCells | jpeg/jquant2.c:447-519 | There are never more boxes than used cells, and as many when none can be split |
| MedianCut.MedianCut | jpeg/jquant2.c:447-519 | The list is reached by cuts only (CutRun): while twice its length is within what is wanted, of the first most populous box that can be cut, then of the first of the largest volume, each cut along its longest axis at the middle of its bounds. Boxes stay disjoint and tight around the same used cells and end up as many as wanted or as there are cells |
| MedianCut.SplitBox | jpeg/jquant2.c:474-516 | The used cells of the two halves are those of the box with a coordinate up to the middle of its bounds, on its longest axis, and those above; both halves are tight |
| MedianCut.CutsUnique | jpeg/jquant2.c:447-519 | Such cuts leave no choice: two runs from the same list agree at every step, so the boxes are determined by the histogram |
| MedianCut.MeanInBox | jpeg/jquant2.c:522-559 | The divisor of a box's mean is positive and the mean lies within the box |
| MedianCut.MeanNearest | jpeg/jquant2.c:522-559 | The mean is the weighted total over the number of pixels, rounded to the nearest integer |
| MedianCut.BoxCounts | jpeg/jquant2.c:522-559 | The totals of a box are what its pixels add up to: n more pixels in a cell of it add n times the centre of that cell, or n to the number, and pixels elsewhere nothing |
| MedianCut.TotalsFit | jpeg/jquant2.c:529-553 | The weighted totals of a box fit a 64-bit long for any image |
| MedianCut.SelectColors | jpeg/jquant2.c:562-590 | The boxes are reached by those cuts from the one box around all used cells; there are as many colours as wanted, or one per used cell, and each is the rounded mean of its box |
| OrthogonalColormap.OutputRises | jpeg/jquant1.c:266-280 | Up to 256 representative values rise strictly and stay within 255 |
| OrthogonalColormap.OutputEnds | jpeg/jquant1.c:266-293 | They run from 0 to 255, and the last breakpoint is not below 255 |
| OrthogonalColormap.RoundedValues | jpeg/jquant1.c:266-293 | The representatives are the evenly spaced values 255 j over their number less one, and the breakpoints the middles between them, rounded to nearest |
| OrthogonalColormap.CreateColormap | jpeg/jquant1.c:300-353 | Each component of each colour has the value its digit of the colour's number selects |
| OrthogonalColormap.Orthogonal | jpeg/jquant1.c:300-353 | The sum of premultiplied indexes is a colour that has, in every component, the value selected for it |
| OrthogonalColormap.CreateColorindex | jpeg/jquant1.c:360-416 | Each input value maps to the first representative whose breakpoint it does not exceed |
| OrthogonalColormap.MapsNear | jpeg/jquant1.c:360-416 | Each input value is within half a step, and half a unit, of the exact value it is mapped to |
| FsDither.CorrectedStep | jpeg/jquant1.c:681-697 | No correction exceeds 255 in size |
| FsDither.DitherRow | jpeg/jquant1.c:637-742 | One array updated in place holds, after the row, exactly what the two-row form passes down, and the codes are those of the two-row form |
| FsDither.InColumns | jpeg/jquant1.c:671-727 | In columns: on even rows from the left and on odd ones from the right, a sample is corrected by 7/16 of what its predecessor in the row has missed and by what the row above passes down, rounded; the row passes down 3/16 of what was missed at the column after, 5/16 at its own and 1/16 at the column before, nothing coming from beyond the ends and nothing from above the first row |
| FsDither.FsQuantizer.QuantizeFsDither | jpeg/jquant1.c:637-742 | However rows are divided among calls, every pixel is the sum of the codes that two-row dithering gives its components |
| FsDither.Below | jpeg/jquant1.c:706-727 | Every stored error lies within 9 times 255 |
| OnePassQuantizer.EmittedColor | jpeg/jquant1.c:700-717 | With premultiplied index tables, the emitted sum of codes is below 256 and the number of a colour, each of whose components is the value that dithering selected for it |
| OnePassQuantizer.CreateTables | jpeg/jquant1.c:851-885 | The colormap and index tables that are built have the values of the product colormap, and premultiplied indexes of the representatives |
| OnePassQuantizer.EmittedIsChosen | jpeg/jquant1.c:700-717 | With those tables, the emitted byte is a subscript of the colormap, and each component of that colour is what the dithering of that component took as represented: the first representative whose breakpoint the corrected sample does not exceed |
| RangeLimit.PrepareRangeLimitTable | jpeg/jdmaster.c:269-295 | The simple part limits subscripts -256 to 639, the part for the inverse DCT any ten-bit value, taken modulo 1024 |
| ContextRows.ContextController.MakeFunnyPointers | jpeg/jdmainct.c:216-256 | The two lists in their normal order, the first with its top row repeated above |
| ContextRows.ContextController.SetWraparoundPointers | jpeg/jdmainct.c:259-284 | Normal lists become wrapped around at both ends |
| ContextRows.ContextController.SetBottomPointers | jpeg/jdmainct.c:287-321 | The last iMCU row is seen as part of the image with its last row repeated, and its row groups are counted |
| ContextRows.KeptByOther | jpeg/jdmainct.c:216-256 | The last two row groups of an iMCU row are found after the next one through the other list |
| ContextRows.ContextController.ProcessData | jpeg/jdmainct.c:406-469 | Under any suspension and any consumption row groups are presented once each, in order, with their rows and nearest context those of the clamped image, and the whole context but for the short end |
| ContextRows.ContextController.AllPresented | jpeg/jdmainct.c:406-469 | When the image is done, exactly all its row groups have been presented |
| ContextRows.ShortEndHappens | jpeg/jdmainct.c:429-441 | A run of the controller, on five rows in row groups of two, after which the context that was presented with the second row group differs from the clamped image |
| VirtualArray.VirtualArray.Access | jpeg/jmemmgr.c:779-861 | The rows found at the returned offset are those of the flat array, zeros if never written and pre-zeroed; it fails exactly for the illegal requests |
| VirtualArray.VirtualArray.Position | jpeg/jmemmgr.c:796-831 | The requested rows always come to lie inside the window, and the error for a missing store cannot occur |
| VirtualArray.VirtualArray.DoIo | jpeg/jmemmgr.c:713-776 | Chunk by chunk, exactly the defined rows of the window are transferred |
| VirtualArray.VirtualArray.Write | jpeg/jmemmgr.c:855-860 | A row written through a granted access is that row of the flat array, and no other |
| VirtualArray.VirtualArray.Read | jpeg/jmemmgr.c:855-860 | A row read through a granted access is that row of the flat array |
| VirtualArray.VirtualArray.constructor | jpeg/jmemmgr.c:606-708 | A realised array is empty (zero if pre-zeroed) and its window holds at least one access |
| Pacing.Decompressor.DecompressData | jpeg/jdcoefct.c:337-409 | For any finite input the forced-input loop ends, and without suspension the input side is ahead of the row; it suspends only for bytes not delivered, never after EOI, and what the scans will finally yield does not change |
| Pacing.Decompressor.ConsumeMarkers | jpeg/jdinput.c:309-352 | The next scan header is sought from where the scan before it stopped, and the scan is set up behind it; EOI comes only after the current scan has been read and leaves no later output scan to wait for; it suspends only for bytes not delivered |
| Pacing.Decompressor.ReadMarkers | jpeg/jdmarker.c:973-1122 | Skipping to markers and passing over tables, it finds the first scan header or EOI that is there in the file, however often it is interrupted; an error comes only if there is none |
| Pacing.MarkersMean | jpeg/jdmarker.c:973-1122 | Only D9 is EOI and only DA begins a scan; tables to be passed over follow other markers |
| Pacing.Decompressor.StartOutput | jpeg/jdapistd.c:249-265 | After EOI the output scan is limited to those that exist |
| Pacing.Decompressor.FinishOutput | jpeg/jdapistd.c:274-297 | Ends with a later scan begun or EOI reached |
| Pacing.Decompressor.StartDecompress | jpeg/jdapistd.c:59-105 | Absorbs all scans, for any finite input; the coefficients are then what all scans together make of them, and output never waits |
| Pacing.Decompressor.ConsumeData | jpeg/jdcoefct.c:266-326 | An iMCU row is read by the coefficient controller, or bytes are missing |
| Decompression.DecompressEncoded | jpeg/jdapistd.c:59-105 | A file of encoded scans that arrives in any pieces is decoded to the end, each header found by the marker reader from where the scan before stopped, with every coefficient to the accuracy sent, and the image restored if everything was sent |
| OutputGeometry.CalcOutputDimensions | jpeg/jdmaster.c:105-180 | The least supported scale not below the one asked for; for each component the largest DCT size at which it does not outgrow the largest component, and its downsampled dimensions |
| OutputGeometry.DownsampledIs | jpeg/jdmaster.c:105-180 | If one sample of a component spans a whole number of output columns or rows, its downsampled dimensions are the fewest samples that cover the output |
| OutputGeometry.RowGroupsAgree | jpeg/jdmainct.c:299-313 | Row groups have a whole number of rows; iMCU rows and row groups are as many for every component, the latter as the output has rows by the largest vertical factor |
| OutputGeometry.LastRowGroupsAgree | jpeg/jdmainct.c:301-313 | The count of row groups in the last iMCU row is the same whichever component it is made for |
| MergedUpsample.BuildYccRgbTable | jpeg/jdcolor.c:91-131 | The tables hold the chroma contributions CrToR, CbToB and the two parts of CbCrToG |
| MergedUpsample.NearestProducts | jpeg/jdcolor.c:119-124 | The red and blue entries are the exact products rounded to the nearest integer |
| MergedUpsample.DecimalProducts | jpeg/jdcolor.c:119-124 | In decimals: the contributions are 1.402 Cr to red, 1.772 Cb to blue and -0.34414 Cb - 0.71414 Cr to green, from centred chroma, with an error of at most 0.502 |
| MergedUpsample.PixelIsRgb | jpeg/jdcolor.c:142-181 | A converted pixel is the RGB of its luma and chroma, limited to 0 to 255, rounded with an error of at most 0.502 |
| MergedUpsample.PixelInRange | jpeg/jdcolor.c:168-174 | No sum of luma and chroma leaves the range-limit table |
| MergedUpsample.H2v1MergedUpsample | jpeg/jdmerge.c:252-307 | The fused row is the row of box upsampling followed by conversion, for any width |
| MergedUpsample.H2v2MergedUpsample | jpeg/jdmerge.c:314-385 | So are both rows of a 2:1 by 2:1 group |
| MergedUpsample.MergedUpsampler.Merged2vUpsample | jpeg/jdmerge.c:165-213 | Every call hands out the next rows of the image, through the spare row or not, for any height and any room of at least one row |
| MergedUpsample.MergedUpsampler.Merged1vUpsample | jpeg/jdmerge.c:216-237 | Every call hands out the next row of the image |
| MergedUpsample.SepUpsampler.SepUpsample | jpeg/jdsample.c:110-164 | The separate form hands out the same rows of the same image |
| MergedUpsample.BoxRow | jpeg/jdsample.c:261-318 | The chroma row stretched to twice its width |
| MergedUpsample.ImagePixel | jpeg/jdmerge.c:165-213 | Pixel x of row r of the image that both forms hand out is converted from luma x of that row and chroma x/2 of its row group |
| MergedUpsample.MergingReplacesBoxes | jpeg/jdmaster.c:65-97 | Where merging is chosen, the separate form would convert from YCC to RGB, use luma as it is and box-upsample the chroma |

## Left out

* Warnings, trace output, counts of discarded bytes and progress monitoring.
* Table numbers and missing tables: every block of an MCU comes with its tables.
* DC predictions are unbounded integers, where the source has an int; stores into coefficients are 16-bit as in the source. A restart zeroes all four predictions, also of components not in the scan.
* ProgressionCheck.StartPass: the components of a scan are taken to be distinct. A first scan over coefficients that are already complete is let pass by the source and recorded, but is not part of a legal progression in `Progression`.
* Progression.ProgressionComesBack: legality covers the padding blocks of interleaved scans too, which the source's record does not follow.
* A source that hands out further bytes in the middle of a call: more bytes arrive between calls only.
* decompress_onepass: its one-MCU buffer is zeroed before every attempt, which makes a retry trivial; the inverse DCT it calls is not modelled.
* MergedUpsample.MergedUpsampler.Merged2vUpsample: pixels are three bytes in the order red, green, blue; other orders and pixel sizes are not modelled.
* Fancy (triangle filter) upsampling, integral upsampling by other factors, ordered dithering and dithering in the two-pass quantiser.
* FsDither.DitherRow: rows are given component by component, where the source steps over interleaved samples.
* ContextRows.ContextController.ProcessData: one component is followed; the others go through the same states with their own row counts. Rows are represented by their numbers in the image, and rows of the padded image below the last real one are distinct from it. A row group counts as presented when the upsampler is done with it.
* VirtualArray.VirtualArray.DoIo: file offsets are counted in rows, not bytes.
* VirtualArray.VirtualArray.constructor: how the available memory is shared out among several arrays; the number of accesses an array has room for is a parameter.
* Pacing.Decompressor.ReadMarkers: what a scan header or the parameters of another marker say, and where they end, is given for the place where they stand, instead of being parsed from the bytes; SOI and SOFn are not expected between scans.
* Decompression.DecompressEncoded: begins behind the first scan header; what comes before it is not modelled.
* MedianCut.TotalsFit: a long of 32 bits, which the totals of a very large image overflow.
* The choice of the number of representative values in select_ncolors.
* The inverse DCT routines, block smoothing, the post-processing controller, arithmetic coding, colourspace guessing, APPn and JFIF inspection, 12-bit samples, the device glue outside `jpeg/`.
