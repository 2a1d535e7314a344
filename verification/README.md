# SmartParcel: verified models

This project models four parts of the SmartParcel system in Dafny and proves what they are for.

**The QR encoder of the gate** (`gate-access/main/qrcodegen.c`, which implements ISO/IEC 18004). Byte buffers are arrays
that the methods change in place, as the C functions do; what they mean is stated on values: polynomials over GF(2^8),
sets of dark modules, bit strings. The results meet in two theorems. `QrEncoder.EncodeSegmentsAdvanced` produces, in the
smallest version that fits, at the highest level that fits, with the first mask of least penalty, exactly the symbol that
`QrSymbol.Symbol` describes; and `QrSymbol.SymbolReadsBack` reads every such symbol back: format bits, unmasking, zigzag,
de-interleaving and parsing return the segments. `QrSymbol.DamagedBlockComesBack` says what the error correction is for:
a block with few wrong bytes still determines its data. `QrText.EncodeText` closes the circle from text to text.
The reader has its own field widths, character tables and paths, and `QrReference` and `QrAppearance` compare formulas and
finished symbols with the tables and pictures of the standard.

**Cards and their synchronisation** (`services.py` of the server, `sync_service.py` of the gateway). Tables are maps and
sequences in the fields of classes. `ServerCards` has the issue invariants over all runs, `GatewayCards` the session of
the gateway with its unflushed rows, `PullBatches` what a pull makes of a batch, `CardSync` both sides together, and
`EventUpload` the way back.

**State machines with time.** `GateLoop` is the main loop of the gate firmware, `NonceWindow` the admission of signed
gateway requests, `RegistrationTokens` the life of a registration token. Clock readings are inputs.

**Arithmetic and codecs.** `UidDecimal` is the conversion of a card UID to decimal, `TagCodec` the frames between gateway
and tag, in C and in Python.

Methods are proved against functions of their inputs or states; what these functions promise is proved of them in lemmas
with their own words and numbers, by name those that end in `Exactly`.

Where a promise does not hold of the code, the project says exactly when it does:

- A gateway keeps in step with the server exactly when no pull so far has carried an event about a card that an earlier
  event of the pull has added, with no commit in between (`CardSync.RunsAgree`; `CardSync.PullAgreesExactly` for one
  pull). The session does not flush before a query, so such an event is lost, and the gateway never regains agreement
  (`CardSync.NeverRegained`). Access requests commit in the middle of a pull. `CardSync.LossBetweenPullsIsMissed` is a
  run in which a lost card stays active; `PullBatches.PullExactly` says what any pull does.
- A gateway request can be repeated exactly when the clock leaves the window of its timestamp between the check and the
  purge (`NonceWindow.ReplayExactly`, with the run `NonceWindow.ReplayAtTheEdge`).
- A card that is off stays off under all events of the card lifecycle, but not under EXPIRED (`GatewayCards.OffExactly`,
  `GatewayCards.ExpiredResurrects`).
- The cooldown of 3000 ms keeps a credential from being posted again exactly when no other one has been posted since
  (`GateLoop.PostedAgainExactly`, with the run `GateLoop.PostedTwiceWithin200Ms`).

Assumptions that the code does not provide are hypotheses of the theorems: pull events arrive in creation order and none
is lost; gateways are registered with their station before the first card is issued (`CardSync.Initial`); an uploaded
payload carries its own event id (`EventUpload.RowIsSound`); the clock does not run backwards (`NonceWindow.Monotone`);
new ids and tokens have not been drawn before (`EventUpload.Enabled`, `RegistrationTokens.Enabled`). Every operation of
the server is one transaction; a pull of the gateway is one unless its events commit.

Check the project with `dafny verify dfyconfig.toml`.

## Files

| files | contents |
|---|---|
| `Arith`, `Bits` | quotients; machine integers, bits and bit strings |
| `GaloisField`, `ReedSolomon`, `Bch` | the field, polynomials, divisor and remainder; check bits of format and version |
| `FieldProducts`, `FieldOrder`, `BlockDistance` | the order of 2 in the field, and how many wrong bytes a block endures |
| `QrTables`, `Interleave` | capacities, blocks |
| `QrGrid`, `QrFunctionModules`, `QrCapacity`, `QrPatterns` | the packed grid, function modules and their number |
| `QrPlacement`, `QrMask`, `QrFormat`, `QrRuns`, `QrPenalty` | zigzag, masks, format bits, penalty |
| `QrSegments`, `QrStream`, `QrParse` | segments, the bit stream and its parser |
| `QrSymbol`, `QrEncoder`, `QrText` | the whole symbol, the encoder, texts |
| `QrReference`, `QrAppearance` | tables and pictures of the standard, and that the encoder agrees with them |
| `Options`, `Texts`, `Cards`, `ServerCards`, `GatewayCards`, `PullBatches`, `CardSync`, `EventUpload` | cards and events |
| `NonceWindow`, `RegistrationTokens`, `GateLoop` | state machines with time |
| `UidDecimal`, `TagCodec` | conversion and frames |

## Model

| member | source | states |
|---|---|---|
| `GaloisField.Multiply` | gate-access/main/qrcodegen.c:405-413 | the Russian-peasant loop returns the field product `Mul` |
| `GaloisField.MulIsProductModulo` | gate-access/main/qrcodegen.c:403-413 | the product is the one byte that is congruent to the carry-less product of the operands modulo 0x11D, and no other byte is |
| `GaloisField.MulCommutes` | gate-access/main/qrcodegen.c:405-413 | the product does not depend on the order of its operands, although the loop treats them differently |
| `GaloisField.MulAssociates` | gate-access/main/qrcodegen.c:405-413 | the product is associative |
| `GaloisField.MulDistributes` | gate-access/main/qrcodegen.c:405-413 | the product distributes over exclusive or |
| `ReedSolomon.ComputeDivisor` | gate-access/main/qrcodegen.c:361-381 | the loops leave the product of the degree linear factors without its leading 1 |
| `ReedSolomon.GeneratorVanishesAtRoots` | gate-access/main/qrcodegen.c:368-380 | the divisor polynomial is zero at 2^0 .. 2^(degree-1) |
| `ReedSolomon.ComputeRemainder` | gate-access/main/qrcodegen.c:387-398 | the division loop leaves the remainder in the result bytes and changes no others |
| `ReedSolomon.DivideOneByte` | gate-access/main/qrcodegen.c:391-397 | taking in one data byte is one step of polynomial division |
| `ReedSolomon.DivisionIdentity` | gate-access/main/qrcodegen.c:384-398 | data * x^degree is the quotient times the monic divisor plus the remainder, for all data and divisors |
| `ReedSolomon.CodewordVanishesAtRoots` | gate-access/main/qrcodegen.c:384-398 | a data block followed by its error correction bytes evaluates to zero at every root of the divisor |
| `FieldOrder.NoSmallerExponent` | gate-access/main/qrcodegen.c:368-380 | 2 has order 255 in the field, so the roots that the divisor is built from are different |
| `FieldOrder.NoZeroDivisors` | gate-access/main/qrcodegen.c:403-413 | a product is 0 only if a factor is: the modulus gives a field |
| `BlockDistance.WordsAreFar` | gate-access/main/qrcodegen.c:357-398 | two different words of at most 255 bytes that are zero at the roots differ in more places than there are roots |
| `BlockDistance.DamagedBlockDetermines` | gate-access/main/qrcodegen.c:384-398 | whatever word is received, at most one data block is within half the number of error correction bytes of it |
| `QrTables.EveryEntrySplits` | gate-access/main/qrcodegen.c:100-118 | at every version and level the table entries leave each block at least one data byte, with 7 to 30 error correction bytes |
| `QrTables.NumDataCodewords` | gate-access/main/qrcodegen.c:330-336 | the number of data codewords is positive and at most the number of raw codewords |
| `QrTables.RawDataModulesBounds` | gate-access/main/qrcodegen.c:339-353 | the asserted range 208 to 29648 holds at every version |
| `Interleave.AddEccAndInterleave` | gate-access/main/qrcodegen.c:297-325 | the result bytes are the interleaving of all blocks and their error correction |
| `Interleave.Layout.DataAtPlace` | gate-access/main/qrcodegen.c:312-320 | byte j of block i goes to a data position of its own, the correction by numShortBlocks included |
| `Interleave.Layout.EccAtPlace` | gate-access/main/qrcodegen.c:321-322 | error correction byte j of block i goes to a position of its own behind the data |
| `Interleave.Layout.EveryPlaceHasOneByte` | gate-access/main/qrcodegen.c:312-324 | every index below rawCodewords is the target of exactly one data or error correction byte |
| `Interleave.Layout.BlocksCoverData` | gate-access/main/qrcodegen.c:310-325 | the blocks, long and short, together are exactly the data codewords |
| `Interleave.BlocksAreCodewords` | gate-access/main/qrcodegen.c:294-325 | de-interleaving recovers each block, and block and error correction together are a Reed-Solomon codeword |
| `Interleave.Layout.RowByRow` | gate-access/main/qrcodegen.c:305-324 | the result takes the first byte of every block, then the second of every block, and so on, and the error correction likewise: the order of the standard |
| `Interleave.BlockLengths` | gate-access/main/qrcodegen.c:300-306 | blocks have one of two lengths that differ by one, the shorter ones first, and together fill the symbol |
| `Interleave.BlocksAreShort` | gate-access/main/qrcodegen.c:100-118 | no block with its error correction exceeds 255 codewords, at any version and level |
| `Interleave.DeinterleaveRoundTrip` | gate-access/main/qrcodegen.c:294-325 | de-interleaving all blocks in order gives the data back |
| `QrReference.CapacityIs` | gate-access/main/qrcodegen.c:330-336 | at all 160 versions and levels the capacity is that of table 7 of the standard, written out apart from the block tables |
| `QrGrid.GetModule` | gate-access/main/qrcodegen.c:772-777 | returns whether the module is in the set of dark modules |
| `QrGrid.SetModule` | gate-access/main/qrcodegen.c:781-791 | changes the colour of the one module and leaves every other module and the size byte |
| `QrGrid.SetModuleUnbounded` | gate-access/main/qrcodegen.c:795-799 | the same in bounds, and nothing out of bounds |
| `QrGrid.FillRectangle` | gate-access/main/qrcodegen.c:566-571 | adds exactly the modules of the rectangle to the dark ones |
| `QrFunctionModules.GetAlignmentPatternPositions` | gate-access/main/qrcodegen.c:553-562 | the positions are the arithmetic progression that ends at size - 7, with 6 in front |
| `QrReference.CentresAre` | gate-access/main/qrcodegen.c:553-560 | the formula gives table E.1 of the standard at all 40 versions |
| `QrFunctionModules.AlignPositions` | gate-access/main/qrcodegen.c:550-562 | positions after the first lie between 18 and size - 7, and all but the last leave room for the finder pattern |
| `QrFunctionModules.AlignPositionsApart` | gate-access/main/qrcodegen.c:550-562 | the list ascends in steps of at least 12, so alignment patterns never overlap |
| `QrFunctionModules.InitializeFunctionModules` | gate-access/main/qrcodegen.c:421-452 | whatever the buffer held, exactly the function modules of the version are dark |
| `QrReference.FunctionModulesAre` | gate-access/main/qrcodegen.c:421-452 | the function modules are finder corners, timing lines, alignment patterns around the centres of table E.1, and version blocks |
| `QrCapacity.FunctionModulesInGrid` | gate-access/main/qrcodegen.c:421-452 | every function module lies in the grid |
| `QrCapacity.DataModulesCount` | gate-access/main/qrcodegen.c:342-353 | the modules that initializeFunctionModules leaves light number getNumRawDataModules, at each of the 40 versions |
| `QrPatterns.DrawLightFunctionModules` | gate-access/main/qrcodegen.c:458-513 | timing, finder and alignment patterns and version blocks are drawn as `LightDrawn` describes |
| `QrPatterns.LightDrawnKeepsDataModules` | gate-access/main/qrcodegen.c:455-513 | drawing the light function modules changes no codeword module |
| `QrAppearance.FindersLookRight` | gate-access/main/qrcodegen.c:467-479 | every finished symbol shows the finder pattern with its separator, as a picture, in three corners |
| `QrAppearance.TimingLooksRight` | gate-access/main/qrcodegen.c:459-465 | the timing patterns of every finished symbol alternate, beginning and ending dark |
| `QrAppearance.AlignmentLooksRight` | gate-access/main/qrcodegen.c:481-493 | every finished symbol shows the alignment pattern, as a picture, around each centre of table E.1 |
| `QrPlacement.DrawCodewords` | gate-access/main/qrcodegen.c:579-602 | bit i of the data goes to the i-th module in zigzag order that is no function module; function modules do not change and all bits are placed |
| `QrPlacement.ZigzagCovers` | gate-access/main/qrcodegen.c:583-600 | the scan visits every module outside column 6 exactly once, and none in column 6 |
| `QrPlacement.DataOrderCoversDataModules` | gate-access/main/qrcodegen.c:579-602 | the modules that receive bits are the codeword modules, each once, and number getNumRawDataModules |
| `QrPlacement.CodewordsReadBack` | gate-access/main/qrcodegen.c:579-602 | reading the modules in the same order gives back every codeword |
| `QrMask.ApplyMask` | gate-access/main/qrcodegen.c:610-633 | exactly the codeword modules on which the pattern inverts change colour |
| `QrReference.PatternIsTiled` | gate-access/main/qrcodegen.c:617-630 | the eight formulas draw the eight tiles of the standard, given as pictures, over the whole grid |
| `QrMask.MaskIsInvolution` | gate-access/main/qrcodegen.c:605-609 | applying the same mask twice restores any grid |
| `QrMask.MaskLeavesFunctionModules` | gate-access/main/qrcodegen.c:605-633 | function modules keep their colour |
| `QrFormat.DrawFormatBits` | gate-access/main/qrcodegen.c:519-547 | the 31 format modules get both copies of the bits and the dark module; nothing else changes |
| `QrFormat.FormatBitsDetermine` | gate-access/main/qrcodegen.c:519-528 | but for the pattern 0x5412 the bits are a multiple of the generator 0x537; they determine level and mask and fit in 15 bits, as asserted |
| `QrPatterns.VersionBitsDetermine` | gate-access/main/qrcodegen.c:496-501 | the bits are a multiple of the generator 0x1F25, determine the version and fit in 18 bits, as asserted |
| `Bch.CheckedData` | gate-access/main/qrcodegen.c:524-527 | data followed by the remainder of the shift loop is a multiple of the generator that begins with the data |
| `QrFormat.FormatModulesAreFunction` | gate-access/main/qrcodegen.c:530-546 | every module that drawFormatBits writes is a function module |
| `QrFormat.FormatReadsBack` | gate-access/main/qrcodegen.c:519-547 | whatever else the grid holds, each copy of its format bits, read along its own path, gives back level and mask |
| `QrFormat.DarkModuleIsDark` | gate-access/main/qrcodegen.c:541-546 | the module beside the lower left finder pattern is always dark |
| `QrRuns.RunsDescribeLine` | gate-access/main/qrcodegen.c:643-663 | the runs counted along a line expand to the line, and none after the first is empty |
| `QrRuns.DescriptionIsUnique` | gate-access/main/qrcodegen.c:643-663 | no other list of runs describes the line |
| `QrRuns.BorderedRunsAre` | gate-access/main/qrcodegen.c:730-746 | the runs of a line between two light borders are its own runs with the border added to the first and the last light one |
| `QrRuns.PatternCountExactly` | gate-access/main/qrcodegen.c:718-726 | a pattern needs the proportion 1:1:3:1:1 with four light units on one side and one on the other, and counts once for each side with four |
| `QrPenalty.BlocksAre` | gate-access/main/qrcodegen.c:688-697 | a block is four modules of the grid that touch in a corner and have one colour |
| `QrPenalty.PenaltyWeights` | gate-access/main/qrcodegen.c:637-697 | the four rules weigh 3 + (n - 5), 40, 3 and 10 |
| `QrPenalty.AddHistory` | gate-access/main/qrcodegen.c:742-747 | pushes a run, lengthened by the border if it is the first |
| `QrPenalty.CountPatterns` | gate-access/main/qrcodegen.c:718-726 | counts the finder-like patterns that end at the latest light run; its assertion holds |
| `QrPenalty.TerminateAndCount` | gate-access/main/qrcodegen.c:730-738 | counts those at the end of the line with the light border behind it |
| `QrPenalty.ScoreLine` | gate-access/main/qrcodegen.c:642-687 | the streaming scan of a row or column gives its declarative score: L - 2 for each run of L >= 5, and 40 for each finder-like pattern in the line with light surroundings |
| `QrPenalty.BalanceStepsIsLeast` | gate-access/main/qrcodegen.c:709-713 | k is the least k >= 0 with (45-5k)% <= dark/total <= (55+5k)%, and k <= 9 |
| `QrPenalty.GetPenaltyScore` | gate-access/main/qrcodegen.c:638-716 | for every grid the result is the sum of line scores, equal-coloured blocks and balance, and lies in the asserted range |
| `QrSegments.AppendBits` | gate-access/main/qrcodegen.c:188-192 | appends the bits of the value, most significant first, behind those the buffer holds, and leaves the bytes behind |
| `QrSegments.MakeNumeric` | gate-access/main/qrcodegen.c:893-923 | the segment has exactly the calculated bit length, and its bits are the packed digits |
| `QrSegments.MakeAlphanumeric` | gate-access/main/qrcodegen.c:927-957 | the same for the 45-character alphabet |
| `QrSegments.PackedNumericLength` | gate-access/main/qrcodegen.c:851-858 | groups of 10, 7 and 4 bits add up to ceil(10n/3) |
| `QrSegments.PackedAlphanumericLength` | gate-access/main/qrcodegen.c:859-860 | groups of 11 and 6 bits add up to ceil(11n/2) |
| `QrSegments.UnpackedPacked` | gate-access/main/qrcodegen.c:906-919 | unpacking the groups returns the original characters, leading zeros included, whatever bits follow |
| `QrStream.GetTotalBits` | gate-access/main/qrcodegen.c:990-1008 | the sum of the segment lengths, or overflow exactly when a count does not fit its field or the sum exceeds INT16_MAX |
| `QrStream.AppendSegments` | gate-access/main/qrcodegen.c:233-245 | the buffer holds mode, count and data bits of every segment in order, and their number is the total |
| `QrStream.AppendPadding` | gate-access/main/qrcodegen.c:247-259 | the buffer is filled exactly to capacity with terminator, zeros to a byte, and alternating 0xEC and 0x11 |
| `QrParse.StreamParses` | gate-access/main/qrcodegen.c:232-259 | a parser of the bit stream recovers mode, count and data bits of every segment and stops at the terminator |
| `QrParse.IndicatorsAre` | gate-access/main/qrcodegen.c:236-239 | the mode indicators are those of table 2 of the standard |
| `QrParse.TotalBitsExactly` | gate-access/main/qrcodegen.c:987-1010 | the total is the length of the stream by the widths of the standard, and overflows exactly when a count does not fit its field or the total exceeds 32767 |
| `QrParse.FitsExactly` | gate-access/main/qrcodegen.c:213-225 | segments fit exactly when every count field holds its count and the capacity of the standard the whole stream |
| `QrParse.WidthsAgree` | gate-access/main/qrcodegen.c:851-874 | the writer uses the field widths and data lengths that the reader takes from the standard |
| `QrEncoder.FindVersion` | gate-access/main/qrcodegen.c:213-224 | succeeds exactly when the segments fit in a version of the range, with the smallest such version |
| `QrEncoder.BoostLevel` | gate-access/main/qrcodegen.c:227-231 | the level is the highest that still fits, never below the request, and the request itself without boosting |
| `QrEncoder.BuildCodewords` | gate-access/main/qrcodegen.c:233-262 | the temporary buffer holds the interleaved codewords of the padded stream |
| `QrEncoder.DrawUnmasked` | gate-access/main/qrcodegen.c:263-266 | the grid holds codewords and patterns before masking, the temporary buffer the function modules |
| `QrEncoder.WithMaskIgnoresFormat` | gate-access/main/qrcodegen.c:271-281 | format bits that an earlier iteration drew do not affect a candidate |
| `QrEncoder.IterationRestores` | gate-access/main/qrcodegen.c:273-280 | applying the mask again restores everything but the format modules |
| `QrEncoder.ChooseMask` | gate-access/main/qrcodegen.c:268-282 | the chosen mask is the first of the eight with the least penalty |
| `QrEncoder.EncodingExactly` | gate-access/main/qrcodegen.c:213-286 | the result is the symbol of the smallest version of the range, of the requested level or, with boosting, the highest that fits, and of the requested mask or the first of least penalty |
| `QrEncoder.EncodeSegmentsAdvanced` | gate-access/main/qrcodegen.c:207-287 | succeeds exactly when the segments fit; then version, level, mask and every module are as required; otherwise only the size byte changes, to 0 |
| `QrSymbol.SymbolReadsBack` | gate-access/main/qrcodegen.c:207-287 | reading a finished symbol (format, unmasking, zigzag, de-interleaving, parsing) gives back the segments, at every version, level and mask |
| `QrSymbol.CodewordsComeBack` | gate-access/main/qrcodegen.c:260-286 | every codeword comes back from the finished symbol, whatever the mask |
| `QrSymbol.VersionReadsBack` | gate-access/main/qrcodegen.c:494-512 | from version 7 on both copies of the version block in a finished symbol hold the 18 bits of its version, and give it back |
| `QrSymbol.BlocksOfSymbolVanish` | gate-access/main/qrcodegen.c:260-286 | every block read from a finished symbol passes the syndrome check of a Reed-Solomon reader |
| `QrSymbol.DamagedBlockComesBack` | gate-access/main/qrcodegen.c:260-286 | a block of a symbol read with at most half as many wrong bytes as it has error correction bytes still determines its data |
| `QrText.IsNumeric` | gate-access/main/qrcodegen.c:812-819 | true exactly for digits |
| `QrText.IsAlphanumeric` | gate-access/main/qrcodegen.c:823-830 | true exactly for the 45 characters |
| `QrText.MakeTextSegment` | gate-access/main/qrcodegen.c:138-160 | it fails exactly when the bits overflow or do not fit the buffer; otherwise the segment has the mode of `TextModeIsShortest` and reads as the text |
| `QrText.TextModeIsShortest` | gate-access/main/qrcodegen.c:138-160 | no mode that can carry the text needs fewer bits than the chosen one, alone or with its header in any version |
| `QrText.ReadDigitsIs` | gate-access/main/qrcodegen.c:890-921 | a reader that takes three digits from ten bits, two from seven and one from four undoes the packing of digits |
| `QrText.ReadAlphanumericsIs` | gate-access/main/qrcodegen.c:924-960 | a reader that takes two characters from eleven bits and one from six, by the table of the standard, undoes the packing of characters |
| `QrText.TextFitsExactly` | gate-access/main/qrcodegen.c:213-225 | a text fits exactly when the count field of the standard holds its length, and header and data its capacity |
| `QrText.TooLongForBuffer` | gate-access/main/qrcodegen.c:141-157 | the early failures refuse only texts that fit in no version of the range |
| `QrText.EncodeText` | gate-access/main/qrcodegen.c:132-166 | succeeds exactly when the text fits in a version of the range, uses the smallest, and the finished symbol reads as the text |
| `UidDecimal.UidHexToDecimal` | gate-access/main/display_ui.c:315-355 | the status is the specified one, and on success the buffer holds the decimal form of the value and a terminator; it is unchanged otherwise |
| `UidDecimal.MultiplyAdd` | gate-access/main/display_ui.c:334-339 | one hexadecimal digit multiplies by 16 and adds; the carry stays at most 15 |
| `UidDecimal.AppendCarry` | gate-access/main/display_ui.c:340-345 | overflow is reported exactly when the value reaches 10^32 |
| `UidDecimal.OutcomeExactly` | gate-access/main/display_ui.c:320-354 | success exactly for hexadecimal texts whose value is below 10^32 and fits the output buffer with its terminator |
| `UidDecimal.NibbleIs` | gate-access/main/display_ui.c:324-332 | each hexadecimal digit, in either case, stands for its place, and nothing else is one |
| `UidDecimal.FitsBufferExactly` | gate-access/main/display_ui.c:348-353 | a value fits in the buffer exactly when its decimal form and a terminator do |
| `UidDecimal.ShortUidsNeverFail` | gate-access/main/display_ui.c:643-649 | UIDs of at most ten bytes never fail with a 32-byte buffer |
| `UidDecimal.DecimalFormIsUnique` | gate-access/main/display_ui.c:348-353 | digits without a superfluous leading zero are determined by the value |
| `TagCodec.XorChecksum` | smartparcel-gateway/gateway/services/ble/protocol.py:23-27 | the loop computes the exclusive or of all bytes |
| `TagCodec.ProtocolXorChecksum` | clip-node-nrf52810/src/clip_protocol.c:3-12 | so does the loop in C |
| `TagCodec.FrameExactly` | smartparcel-gateway/gateway/services/ble/protocol.py:30-34 | a frame byte by byte: 0xA5, kind, length, payload, and a byte with which all bytes cancel out |
| `TagCodec.CommandsAreFrames` | smartparcel-gateway/gateway/services/ble/protocol.py:30-34 | build_command refuses exactly the payloads above 16 bytes and otherwise emits the frame of the low byte of the command |
| `TagCodec.ParseCommand` | clip-node-nrf52810/src/clip_protocol.c:14-46 | the C parser accepts exactly the frames, returns their command and payload, and leaves the output alone on refusal |
| `TagCodec.BuildEvent` | clip-node-nrf52810/src/clip_protocol.c:48-69 | the C builder writes the frame and nothing behind it, or returns 0 exactly when buffer or payload do not fit |
| `TagCodec.EventsParse` | smartparcel-gateway/gateway/services/ble/protocol.py:37-56 | parse_event returns an event exactly for the frame of that event and payload |
| `TagCodec.ErrorsExactly` | smartparcel-gateway/gateway/services/ble/protocol.py:37-56 | which error parse_event gives for what is not a frame |
| `TagCodec.DamagedFramesAreRejected` | smartparcel-gateway/gateway/services/ble/protocol.py:37-50 | a frame with any one byte replaced by another is refused by both parsers |
| `ServerCards.Server.QueueStationEvent` | smartparcel-server/app/services/services.py:217-228 | appends one event for each gateway of the station |
| `ServerCards.Server.BindUserCard` | smartparcel-server/app/services/services.py:239-291 | refuses in the order of the code, or issues the card, replaces the active one and queues both events; keeps the invariant |
| `ServerCards.Server.ReportCardLost` | smartparcel-server/app/services/services.py:308-322 | an active card of the user becomes LOST and its station is told; otherwise 404 or 409 and nothing changes |
| `ServerCards.Server.DisableUserCard` | smartparcel-server/app/services/services.py:325-340 | an active card becomes DISABLED and its station is told; a card that is not active is returned unchanged |
| `ServerCards.Server.RequestGateAuth` | smartparcel-server/app/services/services.py:343-368 | 403, 404 and 400 in the order of the code, or one access event is queued for each gateway of the station and no card changes |
| `ServerCards.Server.GatewayPullSync` | smartparcel-server/app/services/services.py:1004-1012 | returns the pending events of the gateway and marks exactly these as sent |
| `Texts.NormalizedIs` | smartparcel-server/app/services/services.py:253 | a credential value is stripped of spaces at both ends, and of nothing else, and put into upper case |
| `ServerCards.BindReply` | smartparcel-server/app/services/services.py:243-258 | a bind is refused for another kind, an unknown user, another station, staff not in charge, and a value that any card has had, in this order |
| `ServerCards.BindExactly` | smartparcel-server/app/services/services.py:260-291 | a bound card is active, of user and station, with a new id; the active card of the user becomes REPLACED by it; the gateways of the station are told of both, in this order |
| `ServerCards.ReportExactly` | smartparcel-server/app/services/services.py:308-322 | exactly an active card of the user becomes LOST with the reason, and every gateway of its station gets the event |
| `ServerCards.DisableExactly` | smartparcel-server/app/services/services.py:325-340 | exactly an active card that staff in charge turn off becomes DISABLED with the reason, and every gateway of its station gets the event |
| `ServerCards.AccessExactly` | smartparcel-server/app/services/services.py:343-368 | who may ask for access, at which gateway and until when; the gateways of the station get the event and no card changes |
| `ServerCards.DisabledForGood` | smartparcel-server/app/services/services.py:325-340 | after an accepted disable of an active card it is DISABLED with the reason at every later moment of every run |
| `ServerCards.LostForGood` | smartparcel-server/app/services/services.py:308-322 | after an accepted report it is LOST with the reason at every later moment of every run |
| `ServerCards.RunsKeep` | smartparcel-server/app/services/services.py:239-340 | over every run: at most one active card per user and station, values distinct, replacement links upward within user and station, and a card that is not active never changes |
| `ServerCards.NeverIssuedTwice` | smartparcel-server/app/services/services.py:253-258 | no credential value is ever issued twice, up to surrounding spaces and case |
| `ServerCards.LastReplacement` | smartparcel-server/app/services/services.py:273-278 | every replacement chain ends, at a card of the same user and station that has not been replaced |
| `ServerCards.PendingAfterPull` | smartparcel-server/app/services/services.py:1004-1012 | a pull empties the pending events of one gateway and leaves those of the others |
| `GatewayCards.Gateway.ApplySyncEvent` | smartparcel-gateway/gateway/services/sync_service.py:83-180 | each event has the specified effect on the card rows, and replacements and access requests commit the session of the whole batch |
| `GatewayCards.UpsertExactly` | smartparcel-gateway/gateway/services/sync_service.py:86-105 | what an UPSERT does to an unknown, a known and a terminal card, with all defaults |
| `GatewayCards.DisableExactly` | smartparcel-gateway/gateway/services/sync_service.py:106-114 | what a DISABLED does to a known card, and nothing to an unknown one |
| `GatewayCards.ReplaceExactly` | smartparcel-gateway/gateway/services/sync_service.py:115-121 | a REPLACED is a DISABLED of the old value and then an UPSERT of the new one |
| `GatewayCards.Gateway.SyncPullOnce` | smartparcel-gateway/gateway/services/sync_service.py:37-46 | the events of an answer are applied in order up to the first whose commit fails; what none of them has committed is committed at the end, or undone |
| `GatewayCards.NoResurrection` | smartparcel-gateway/gateway/services/sync_service.py:100-104 | a card once LOST, REPLACED or DISABLED never becomes ACTIVE again, for any lifecycle events in any order and number |
| `GatewayCards.NoResurrectionAcrossPulls` | smartparcel-gateway/gateway/services/sync_service.py:37-125 | the same over any sequence of pulls, with unflushed rows and failing batches |
| `GatewayCards.OffExactly` | smartparcel-gateway/gateway/services/sync_service.py:83-114 | exactly these single events turn such a card on: UPSERT(EXPIRED), DISABLED(ACTIVE), DISABLED(EXPIRED) |
| `GatewayCards.ExpiredResurrects` | smartparcel-gateway/gateway/services/sync_service.py:100-104 | a concrete run in which a LOST card becomes ACTIVE by way of EXPIRED |
| `GatewayCards.DisabledTooEarly` | smartparcel-gateway/gateway/services/sync_service.py:106-114 | a card disabled before its UPSERT arrives ends up active, so order of delivery matters |
| `PullBatches.PullExactly` | smartparcel-gateway/gateway/services/sync_service.py:37-125 | for every batch: the pull succeeds exactly when no event adds a card that the batch has added since its last commit, and then does what the events say without those that turn off a card not yet found; otherwise the rows are left as of the last commit before the first such event |
| `PullBatches.UncommittedExactly` | smartparcel-gateway/gateway/services/sync_service.py:87-98 | the cards added since the last commit, said of single events: an UPSERT is the first to bring the card in, it was not in the table, and no event after it commits |
| `PullBatches.BatchExactly` | smartparcel-gateway/gateway/services/sync_service.py:37-46 | every prefix of a batch of lifecycle events does exactly what its events say if and only if no event is about a card that an earlier one adds with no commit in between |
| `PullBatches.BatchOnceExactly` | smartparcel-gateway/gateway/services/sync_service.py:37-46 | the same for the whole batch alone, when no card is turned off by two of its events |
| `PullBatches.RepairedLater` | smartparcel-gateway/gateway/services/sync_service.py:106-114 | concretely: a batch that turns a card off twice comes out right although the first time is lost, so the hypothesis of `BatchOnceExactly` is needed |
| `CardSync.RunsAgree` | smartparcel-server/app/services/services.py:239-340 | over every run of requests and pulls, all gateways hold the cards of their stations with owner and status, up to the events still queued for them, if and only if no pull so far had an event about a card added by an earlier one with no commit in between |
| `CardSync.GatewayAgreesExactly` | smartparcel-gateway/gateway/services/sync_service.py:37-46 | the same for one gateway and its own pulls |
| `CardSync.RunAt` | smartparcel-gateway/gateway/services/sync_service.py:83-114 | a gateway that has had a pull of the other kind holds a retired card as ACTIVE with nothing queued about it |
| `CardSync.NeverRegained` | smartparcel-gateway/gateway/services/sync_service.py:83-114 | a gateway that has lost agreement never regains it |
| `CardSync.HoldsLastPull` | smartparcel-gateway/gateway/services/sync_service.py:37-114 | as long as its pulls are orderly, a gateway holds exactly the cards of its station with the data they had at the server when it last pulled |
| `CardSync.EveryPullCommits` | smartparcel-gateway/gateway/services/sync_service.py:37-46 | over every run, with what the server queues, every pull commits |
| `CardSync.DisabledAtGateway` | smartparcel-gateway/gateway/services/sync_service.py:106-114 | once a gateway whose pulls are orderly has pulled after a disable, its row is DISABLED with the reason |
| `CardSync.LostAtGateway` | smartparcel-gateway/gateway/services/sync_service.py:106-114 | and after a report of loss it is LOST with the reason |
| `CardSync.DrainedAgrees` | smartparcel-gateway/gateway/services/sync_service.py:83-114 | once its queue is drained, gateway and server have the same active cards for the station |
| `CardSync.SettledCardAgrees` | smartparcel-gateway/gateway/services/sync_service.py:83-114 | a card about which nothing is queued has the same status on both sides |
| `CardSync.PullAgreesExactly` | smartparcel-gateway/gateway/services/sync_service.py:37-46 | a pull of what the server queues, access requests included, keeps agreement if and only if no event of its batch is about a card that an earlier event adds with no commit in between |
| `CardSync.LossBetweenPullsIsMissed` | smartparcel-gateway/gateway/services/sync_service.py:106-114 | concretely: a card issued and reported lost between two pulls stays ACTIVE at the gateway with nothing left to pull |
| `EventUpload.Server.GatewayPushSync` | smartparcel-server/app/services/services.py:1015-1039 | known event ids are skipped, new ones recorded and applied, and a failing item undoes the request |
| `EventUpload.PushItemExactly` | smartparcel-server/app/services/services.py:1018-1037 | an item without an id is refused, a known one skipped, a new one recorded and applied if its handler takes it |
| `EventUpload.RequestExactly` | smartparcel-server/app/services/services.py:1015-1039 | a request is taken exactly when each item has an id and is known, taken by its handler or a repetition; then all ids are on record, and otherwise nothing changes |
| `EventUpload.RequestKeeps` | smartparcel-server/app/services/services.py:1018-1039 | whatever the items of a request are and wherever it fails, no event takes effect twice, and what is recorded and applied is never taken back |
| `EventUpload.Uploader.EnqueueEventUpload` | smartparcel-gateway/gateway/services/sync_service.py:193-203 | the row takes the event id of the payload, or a fresh one |
| `EventUpload.Uploader.SyncPushOnce` | smartparcel-gateway/gateway/services/sync_service.py:205-221 | PENDING and FAILED rows are sent one by one and become ACKED or FAILED; other rows are not touched |
| `EventUpload.PushExactly` | smartparcel-gateway/gateway/services/sync_service.py:205-221 | exactly the PENDING and FAILED rows are sent; one that is answered becomes ACKED, any other FAILED with one more retry |
| `EventUpload.DeliveredForGood` | smartparcel-gateway/gateway/services/sync_service.py:205-221 | over every run: once a push delivers a PENDING or FAILED row with an id and it is taken, the row is ACKED from then on and its event has taken effect exactly once |
| `EventUpload.ExactlyOnce` | smartparcel-server/app/services/services.py:1018-1037 | with requests of any number of items, lost, repeated, delayed or rolled back, and answers lost, each queued event takes effect at most once and as it was queued, and exactly once when its row is ACKED |
| `EventUpload.AcknowledgedForGood` | smartparcel-gateway/gateway/services/sync_service.py:206-212 | an ACKED row stays as it is and is never selected for sending again |
| `EventUpload.WithoutIdNeverAcknowledged` | smartparcel-gateway/gateway/services/sync_service.py:122-124 | an event queued without an event_id in its payload is never acknowledged |
| `NonceWindow.Gate.RememberGatewayNonce` | smartparcel-server/app/core/security.py:213-221 | purges old entries and inserts, or refuses a repetition and leaves the table as it was |
| `NonceWindow.Gate.VerifyGatewayRequest` | smartparcel-server/app/core/security.py:224-292 | the checks are made in order and the verdict is that of the first that fails; only an admission changes the table |
| `NonceWindow.AdmittedExactly` | smartparcel-server/app/core/security.py:224-292 | a request is admitted if and only if all headers are there, the gateway is known, active and the expected one, the timestamp is in the window, hash and signature match, and no recent entry has its nonce; then the nonce is stored, and a refusal changes nothing |
| `NonceWindow.RefusedExactly` | smartparcel-server/app/core/security.py:224-292 | each refusal is that of the first thing that is not in order |
| `NonceWindow.AdmittedInOrder` | smartparcel-server/app/core/security.py:224-292 | over every run, what is admitted was in order against the table of that moment |
| `NonceWindow.NoReplay` | smartparcel-server/app/core/security.py:202-221 | when the two clock readings of a request agree, no run admits the same gateway, nonce and timestamp twice |
| `NonceWindow.ReplayExactly` | smartparcel-server/app/core/security.py:202-221 | with two readings a repetition is admitted if and only if the purge reading is past the window of its timestamp |
| `NonceWindow.ReplayAtTheEdge` | smartparcel-server/app/core/security.py:202-221 | concretely: a committed request of time 1000 is admitted again when it is checked at 1300 and purges at 1301, with a tolerance of 300 |
| `NonceWindow.UncommittedReplays` | smartparcel-server/app/core/security.py:213-221 | an admission whose transaction is not committed can be repeated |
| `NonceWindow.ReplayAfterRollback` | smartparcel-server/app/core/security.py:213-221 | concretely: after a first transaction that is not committed the same request is admitted at once |
| `RegistrationTokens.TokenService.CreateGatewayRegistrationToken` | smartparcel-server/app/services/services.py:528-562 | 404 and 400 in order, or a PENDING token with the effective lifetime |
| `RegistrationTokens.TokenService.ListGatewayRegistrationTokens` | smartparcel-server/app/services/services.py:565-576 | expires the overdue pending tokens among the latest hundred and nothing else |
| `RegistrationTokens.TokenService.RevokeGatewayRegistrationToken` | smartparcel-server/app/services/services.py:579-587 | only a PENDING token becomes REVOKED |
| `RegistrationTokens.TokenService.ActivateGatewayRegistration` | smartparcel-server/app/services/services.py:590-699 | the checks in order; an overdue token becomes EXPIRED; success stores gateway and secret and uses the token |
| `RegistrationTokens.CreateExactly` | smartparcel-server/app/services/services.py:528-562 | a token takes an existing station and a positive lifetime, the default when none or zero is asked for |
| `RegistrationTokens.ListExactly` | smartparcel-server/app/services/services.py:565-576 | listing expires exactly the pending tokens among the latest hundred whose time is over |
| `RegistrationTokens.RevokeExactly` | smartparcel-server/app/services/services.py:579-587 | revoking an existing token makes it REVOKED if it is pending |
| `RegistrationTokens.ActivateExactly` | smartparcel-server/app/services/services.py:590-699 | what an activation needs of token and device, what it answers otherwise, and what it stores |
| `RegistrationTokens.UnknownTokenIsRefused` | smartparcel-server/app/services/services.py:597-604 | 404 for an unknown station, 401 for an unknown token |
| `RegistrationTokens.LeavesPendingOnce` | smartparcel-server/app/services/services.py:565-699 | USED, EXPIRED and REVOKED are final over every run, whatever the clock does |
| `RegistrationTokens.OneSecretPerToken` | smartparcel-server/app/services/services.py:590-699 | each token yields at most one secret, strictly before its expiry |
| `RegistrationTokens.SecretExactly` | smartparcel-server/app/services/services.py:597-680 | a secret is handed out exactly for a pending, matching, unexpired token of an acceptable device |
| `GateLoop.Gate.Iterate` | gate-access/main/app_main.c:435-561 | one iteration changes the loop variables and posts and shows results as specified |
| `GateLoop.Gate.CardPolled` | gate-access/main/app_main.c:470-531 | latch, cooldown, posting and removal after one poll of the reader |
| `GateLoop.AlwaysPendingOnQrPage` | gate-access/main/app_main.c:439-551 | over every run, qr_auth_pending implies that the page is QR and no final result has been shown |
| `GateLoop.AuthAnswersAreShown` | gate-access/main/app_main.c:537-554 | every final answer to a poll is shown, while the QR page is open |
| `GateLoop.EachResultNeedsATouch` | gate-access/main/app_main.c:447-554 | between two results of QR logins there is a touch that opened the QR page |
| `GateLoop.PostsAreApart` | gate-access/main/app_main.c:490-505 | two consecutive posts of the same credential are at least 3000 ms apart |
| `GateLoop.PostedAgainExactly` | gate-access/main/app_main.c:490-505 | a credential that is taken for new is posted again if and only if another one has been posted since its last post or 3000 ms have passed |
| `GateLoop.PostedTwiceWithin200Ms` | gate-access/main/app_main.c:490-505 | concretely, from the start of the loop: one card is posted twice within 200 ms, with another posted in between |
| `GateLoop.CardExactly` | gate-access/main/app_main.c:477-505 | which reported card takes the latch and which is posted, in terms of the variables of the loop |
| `GateLoop.SeesExactly` | gate-access/main/app_main.c:477 | a credential counts as reported when it is present and its value is not empty |
| `GateLoop.NothingReported` | gate-access/main/app_main.c:516-527 | what a poll without a card does to the latch: it is released 2000 ms after the first such poll |
| `GateLoop.NewAgainExactly` | gate-access/main/app_main.c:481-527 | after a card has been reported and then nothing, its next report counts as new if and only if a poll has come 2000 ms after the first one without it |
| `GateLoop.PutBackExactly` | gate-access/main/app_main.c:481-527 | such a card is posted if and only if another one has been posted since its last post or 3000 ms have passed |
| `GateLoop.PostedAgainAfterAbsence` | gate-access/main/app_main.c:481-527 | concretely, from the start of the loop: a card is taken away for 3 s, put back, and posted again |
| `GateLoop.PagesExactly` | gate-access/main/app_main.c:439-554 | 5 s for a result, 10 s for the QR page that a touch opens from the menu, back to the menu when the time is over, and no change before |
| `GateLoop.LoginExactly` | gate-access/main/app_main.c:533-554 | when the result of a login is polled, and which answers are shown |
| `GateLoop.PollsAreApart` | gate-access/main/app_main.c:533-537 | two polls for the result of a login are at least 1000 ms apart |
| `GateLoop.RestartsExactly` | gate-access/main/app_main.c:528-559 | a failed reader is restarted at every 20th iteration, the network at every 30th |
| `GateLoop.AlternatingCardsAreNotApart` | gate-access/main/app_main.c:481-505 | two cards held up in turn are posted in turn, whatever the time between them |
| `GateLoop.TakenAwayBetweenPosts` | gate-access/main/app_main.c:472-531 | between two posts of one credential, with no other detected, there are at least 2000 ms in which no poll reported a card |

## Left out

- QrParse.StreamParses: leaves out ECI segments, whose announced length is only a bound, so a reader needs their content; encoding them is covered by EncodeSegmentsAdvanced.
- QrText.EncodeText: Kanji and ECI texts are never made by this function.
- QrSymbol.SymbolReadsBack: the reader takes an undamaged symbol; that damaged blocks determine their data is QrSymbol.DamagedBlockComesBack, but no decoding algorithm is modelled, as the source has none.
- Bch.CheckedData: the distance of the two BCH codes is not modelled.
- QrEncoder.EncodeSegmentsAdvanced: a segment holds the contents of its data buffer, so that a segment whose buffer is the temporary buffer (as qrcodegen_encodeText passes it) is modelled by a copy; the two output buffers are distinct.
- qrcodegen_encodeBinary, qrcodegen_encodeSegments, qrcodegen_makeBytes and qrcodegen_makeEci: wrappers and small builders that would only add easy members.
- TagCodec.BuildEvent: payload and output buffer are distinct arrays.
- ServerCards.Server.BindUserCard: rows locked by concurrent requests and the integrity error they lead to are not modelled, since operations are sequential; strip and upper are those of ASCII; times and the admin who acted are left out.
- GatewayCards.Gateway.ApplySyncEvent: payloads with missing required fields or unknown statuses, expiry dates, times and hashes are left out. Of an access request only its commits are modelled, not the parcels, sessions and audit uploads it records. A confirmed pickup changes no card row, adds none and does not commit. PARCEL_UPSERT and PARCEL_TAG_BINDING_UPSERT, which only demo data queues, are not modelled: their rows share the transaction of the cards, so that two of them about one new parcel make its commit fail.
- GatewayCards.Gateway.Commit: after a failed commit the model goes on with a usable session, as the sync-pull command does by closing it (smartparcel-gateway/gateway/cli.py:207-213). The runtime loop (cli.py:985-989) catches the exception and keeps the shared session without rolling it back; what the database layer makes of such a session is not part of this model. With what the server queues no pull comes to that (CardSync.EveryPullCommits).
- PullBatches.BatchOnceExactly: for a batch that turns a card off twice, which the server never queues (CardSync.FromServer), PullBatches.PullExactly gives the outcome and PullBatches.BatchExactly the condition for all prefixes together.
- CardSync.RunsAgree: a gateway that changes its station or is registered after cards have been issued is outside the hypotheses, and so are demo data and card commands of the command line, which bypass the card lifecycle.
- EventUpload.Uploader.SyncPushOnce: the sync status of the local pickup event is left out; business effects are uninterpreted and may fail.
- NonceWindow.Gate.VerifyGatewayRequest: HMAC, SHA-256 and the parsing of the timestamp are results that come with the request; audit records are left out.
- RegistrationTokens.TokenService.ActivateGatewayRegistration: token hashes and secrets are uninterpreted numbers; the two statuses DISABLED and REVOKED of a factory device are called OutOfService and Withdrawn; bookkeeping fields of device and gateway are left out.
- GateLoop.Gate.Iterate: drivers, display and network appear through their answers; the loop counter does not wrap around.
