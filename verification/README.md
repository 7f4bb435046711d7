# Formal model of the ATLAS ERP backend cores

This project models the parts of the backend whose correctness cannot be seen by looking at their
output, and proves what they promise for all inputs, all runs and all interleavings.

- **QR encoder.** The complete encoder of ISO/IEC 18004:2015, byte mode, level M, versions 1 to 10:
  field tables and Reed-Solomon division (`GaloisField`, `FieldOrder`, `Polynomials`, `ReedSolomon`),
  bit stream (`QrEncoding`), blocks (`QrInterleaving`), function patterns (`QrPlacement`), zigzag
  (`QrLayout`, `QrZigzag`, `QrCapacity`), masks and format bits (`QrSymbol`). `QrCodec` holds a reference
  decoder written from the standard and the theorem that decoding inverts encoding under every mask;
  `Distance` shows how much damage to its codewords leaves the content of a symbol determined, and
  `QrStandard` (with `HexDigits`) that the tables are those that the standard's rules prescribe.
- **Event inbox** (`EventInbox`). Transactions interleave step by step; an uncommitted key or version row
  makes others wait. One effect per event, versions in order, convergence, and no deadlock.
- **Document numbering** (`DocumentNumbering`). Transactions with a lock per series; the largest text
  decides the next number.
- **Exact money** (`Rounding`, `Money`, `MoneyInput`, `Allocation`, on `Decimals`).
- **Seed load** (`SeedSync`). One transaction over tables, foreign keys and sequences, any statement of
  which may fail.
- **Calendar** (`Calendar`, `BillingPeriod`, `BusinessDate`). Months, days and dates as texts.
- **Migration executors** (`Migrations`), **SQL redaction** (`SqlRedaction`, `SqlBlocks`, `SqlExposure`), **access
  registry** (`AccessRegistry`) and **compliance evaluator** (`Compliance`, `ComplianceRules`).

Code that changes things step by step is modelled by methods and classes that do the same, each proved
against a specification; the lemmas then speak about the specification. `dafny verify dfyconfig.toml`
checks the whole project.

Where the code does less than its comments say, the code is modelled and the limit is stated exactly:

- A document series is gapless only up to 10^padding. The next number is then repeated, because the largest
  *text* stays the one of all nines (`DocumentNumbering.GaplessSeries`, `DocumentNumbering.OverflowOrder`).
  A prefix with an underscore also reads the numbers of other series (`DocumentNumbering.UnderscoreCounts`).
- `addMonthsUtc` lands in the right month exactly when the target year is outside 0 to 99, which `Date.UTC`
  reads as 1900 to 1999 (`BillingPeriod.LandsInMonth`, `BillingPeriod.EarlyYearMisses`). Outside those years
  it keeps days in order but not instants (`BillingPeriod.InstantsCrossExactly`).
- `addDays` gives a date exactly when the year of the sum is 0 to 9999; beyond, the ten characters that it
  keeps end with the month (`BusinessDate.AddDaysShape`, `BusinessDate.FarDates`).
- A manifest table of which every column is generated is emptied and not filled, and its rows are not
  counted; every other table arrives whole (`SeedSync.WholeOrEmpty`, `SeedSync.CountIsComplete`,
  `SeedSync.GeneratedTableStaysEmpty`).
- `parseExactPositiveAmount` throws at scale 0, where its pattern does not compile, and above 12 on every
  text of the pattern, and nowhere else (`MoneyInput.ThrowsExactly`, `MoneyInput.ThrowingScales`).
- Redaction, as far as it does not cut the output, hides a text without apostrophes, dollar signs and white
  space exactly if it stands between an odd number of apostrophes and another one, or in a dollar-quoted block
  of what is then left (`SqlExposure.ShowsExactly`, `SqlExposure.LiteralHiddenExactly`). So a literal may show
  behind an odd number of apostrophes, be they in a comment, a quoted identifier or a body
  (`SqlExposure.CommentLeaks`, `SqlExposure.QuotedNameLeaks`, `SqlBlocks.ApostropheLeaks`); the rest of a
  body behind its own closing mark or two dollar signs (`SqlBlocks.EndsAtOwnMark`,
  `SqlBlocks.DoubledDollarLeaks`); and a body when a mark opens in the text before it
  (`SqlExposure.MarkExposes`, `SqlExposure.NameLeaks`).

## Model

| member | source | states |
|---|---|---|
| QrCodec.QrMatrix | src/common/qr/qr.ts:395-429 | refuses content exactly above 213 bytes; otherwise the symbol has the smallest version that fits, is the first candidate of least penalty, and the reference decoder gives back exactly the bytes, for the chosen mask and for each of the other seven |
| QrCodec.DecodeInvertsSymbol | src/common/qr/qr.ts:395-429 | reading mask, modules, blocks and segment of any complete symbol inverts the encoder, for every version, mask and content |
| QrCodec.FormatRoundTrip | src/common/qr/qr.ts:306-328 | the mask is recovered from the format bits beside the top-left finder |
| QrCodec.ChooseMask | src/common/qr/qr.ts:409-421 | the eight candidates are complete symbols of the same codewords and the first of least penalty is chosen, whatever the penalty |
| QrCodec.BuildBase | src/common/qr/qr.ts:400-407 | the unmasked matrix shows every function pattern and carries the codewords on its data modules |
| QrCodec.Candidate | src/common/qr/qr.ts:411-413 | masking and writing the format bits makes a complete symbol of the base |
| ReedSolomon.BuildTables | src/common/qr/qr.ts:58-69 | the power table holds the powers of x modulo 0x11d, doubled in length, and the logarithm table inverts it on every nonzero byte |
| ReedSolomon.GfMul | src/common/qr/qr.ts:71 | the table product is the product of the field, that of polynomials modulo 0x11d |
| FieldOrder.PowDistinct | src/common/qr/qr.ts:61-68 | x generates the field: its first 255 powers are pairwise different, which the logarithm table needs |
| FieldOrder.PowSurjective | src/common/qr/qr.ts:61-68 | every nonzero byte is a power of x with an exponent below 255 |
| FieldOrder.MulAssoc | src/common/qr/qr.ts:71 | the product is associative |
| FieldOrder.MulComm | src/common/qr/qr.ts:71 | the product is commutative |
| FieldOrder.MulAddLeft | src/common/qr/qr.ts:71 | the product distributes over addition |
| FieldOrder.MulNonZero | src/common/qr/qr.ts:71 | a product of nonzero bytes is nonzero |
| ReedSolomon.GeneratorPoly | src/common/qr/qr.ts:74-85 | the generator is monic of the given degree and is the product of (x - EXP[i]) for i below the degree |
| ReedSolomon.Remainder | src/common/qr/qr.ts:88-102 | for 1 to 255 correction bytes the shift register yields the correction for which data followed by correction evaluates to 0 at EXP[0] to EXP[n-1] |
| ReedSolomon.CorrectionStep | src/common/qr/qr.ts:91-100 | one byte through the shift register keeps the register the correction of the bytes seen |
| ReedSolomon.CorrectionUnique | src/common/qr/qr.ts:88-102 | no other correction of that length makes the block a codeword |
| Polynomials.RootsForceZero | src/common/qr/qr.ts:88-102 | a polynomial with as many different roots as coefficients is zero |
| Distance.MinimumDistance | src/common/qr/qr.ts:87-102 | a codeword of at most 255 entries that is not zero has more than n nonzero entries, n being the number of correction bytes |
| Distance.CodewordsFarApart | src/common/qr/qr.ts:87-102 | two different codewords of one length differ in more than n positions |
| Distance.UniqueDecoding | src/common/qr/qr.ts:87-102 | a received block that differs in at most n / 2 positions from one codeword does so from no other, so data and correction are determined |
| QrEncoding.PickVersion | src/common/qr/qr.ts:112-118 | the smallest version in which the content fits; none exactly above 213 bytes |
| QrEncoding.EncodeData | src/common/qr/qr.ts:120-149 | the codewords are mode, count, content, terminator and alternating pad bytes, as many as the version has |
| QrEncoding.PackStream | src/common/qr/qr.ts:135-140 | packing bits into codewords inverts writing codewords as bits |
| QrEncoding.StreamPack | src/common/qr/qr.ts:135-140 | and the other way round, for whole bytes of bits |
| QrEncoding.ReadSegmentOfEncoding | src/common/qr/qr.ts:120-149 | reading mode, count and bytes from the codewords gives back the content |
| QrInterleaving.SplitBlocks | src/common/qr/qr.ts:157-169 | the blocks have the prescribed lengths, concatenate to the codewords and carry their corrections |
| QrInterleaving.CollectRows | src/common/qr/qr.ts:171-178 | the loops write, row by row, what each block has in that row |
| QrInterleaving.Interleave | src/common/qr/qr.ts:152-180 | deinterleaving the result gives back the codewords, and every block read is a Reed-Solomon codeword |
| QrInterleaving.InterleavingReads | src/common/qr/qr.ts:171-179 | every data and correction codeword stands where the reader looks for it |
| Distance.DamageTolerated | src/common/qr/qr.ts:22-37 | what level M is for: if at most half as many codewords of each block are damaged as it has correction codewords, only one content of the version can have been encoded |
| QrCapacity.SymbolFits | src/common/qr/qr.ts:263-282 | the data and correction codewords of every version fill its data modules up to a rest of less than a codeword |
| QrStandard.FitsExactly | src/common/qr/qr.ts:112-118 | a version holds exactly the bytes that table 7 of the standard gives for level M |
| QrStandard.BlocksShareSymbol | src/common/qr/qr.ts:22-37 | each version has the number of blocks of table 9; they share its data codewords as evenly as possible, and what the data leave of the symbol is correction |
| QrStandard.LevelM | src/common/qr/qr.ts:22-37 | the correction of every block repairs 15 per cent of it, and less than the 25 of the next level |
| QrStandard.FifteenPercent | src/common/qr/qr.ts:22-37 | a symbol with at most 15 per cent of each block damaged is repairable |
| QrStandard.AlignmentSpacing | src/common/qr/qr.ts:38-49 | the alignment centres are two a line, from version 7 on three, evenly spaced from column 6 to as far from the other edge |
| QrStandard.NotInFinders | src/common/qr/qr.ts:219-232 | every pair of centres has its pattern except the three that lie in finders |
| QrStandard.FormatIsCode | src/common/qr/qr.ts:55 | without the fixed mask a format string is 00 for level M, the mask, and the correction bits that make it a multiple of the generator 0x537 |
| QrStandard.VersionIsCode | src/common/qr/qr.ts:52 | a version string is the version and the correction bits that make it a multiple of 0x1f25 |
| QrStandard.SumMasks | src/common/qr/qr.ts:285-288 | the masks of the sum of row and column: chequers, and every third diagonal |
| QrStandard.LineMasks | src/common/qr/qr.ts:286-287 | the masks of lines: every second row, and every third column |
| QrStandard.OtherMasks | src/common/qr/qr.ts:289-292 | the other four: stripes of two rows and three columns, and the product of row and column modulo 6 |
| QrLayout.ZigzagBijection | src/common/qr/qr.ts:263-282 | the zigzag visits each data module exactly once, no function module, and column 6 never |
| QrPlacement.PlaceFunctionPatterns | src/common/qr/qr.ts:194-260 | reserved are exactly the function modules of the version, and each shows its prescribed colour |
| QrPlacement.Finder | src/common/qr/qr.ts:195-208 | a finder and its separator, clipped to the matrix, and nothing else |
| QrPlacement.Timing | src/common/qr/qr.ts:214-217 | the two timing patterns and nothing else |
| QrPlacement.AlignmentPatterns | src/common/qr/qr.ts:220-235 | the alignment patterns away from the finders and nothing else |
| QrPlacement.ReserveFormat | src/common/qr/qr.ts:241-248 | reserves the two format areas without repainting what is reserved |
| QrPlacement.PlaceVersionInfo | src/common/qr/qr.ts:250-259 | both copies of the version string |
| QrZigzag.PlaceData | src/common/qr/qr.ts:263-282 | module k of the path gets bit k of the codewords, then zeros; function modules keep their colour; the loop with its step over column 6 ends |
| QrZigzag.PlacePair | src/common/qr/qr.ts:269-278 | one pair of columns, upward or downward, extends the path written so far |
| QrZigzag.NextPair | src/common/qr/qr.ts:266-281 | the column that the loop works on is the next pair of the path, also across column 6 |
| QrSymbol.ApplyMask | src/common/qr/qr.ts:295-304 | a copy with exactly the free modules under the mask inverted; the original is unchanged |
| QrSymbol.WriteFormat | src/common/qr/qr.ts:306-328 | both copies of the fifteen format bits in their modules and no other module changed |
| QrSymbol.FormatCells | src/common/qr/qr.ts:319-326 | each format bit has exactly two modules |
| EventInbox.SingleEffect | src/common/events/event-inbox.ts:54-121 | in every interleaving of deliveries, repetitions, failing effects and aborts a key has at most one committed effect, and in every-event mode exactly one as soon as one of its deliveries committed |
| EventInbox.OneAppliedEntry | src/common/events/event-inbox.ts:44-86 | by fields: of the committed deliveries of an event to one consumer at most one is applied, and one is as soon as any is committed and all asked for every event; other consumers have their own |
| EventInbox.KeysByFields | src/common/events/event-inbox.ts:67-86 | deliveries share an inbox row exactly if consumer and event are the same |
| EventInbox.RowsByFields | src/common/events/event-inbox.ts:91-101 | ordered deliveries share a version row exactly if consumer, kind and identifier of the aggregate are the same |
| EventInbox.LatestStateOrder | src/common/events/event-inbox.ts:86-120 | effects on an aggregate are committed in strictly increasing version order, and the version row is the largest version of all its events whose key was committed the first time, stale ones included; if a repeated key always repeats its event, the largest of all its committed events |
| EventInbox.Convergence | src/common/events/event-inbox.ts:86-120 | two histories that committed the same events of an aggregate, with different versions, show the same last event |
| EventInbox.NeverStuck | src/common/events/event-inbox.ts:65-100 | from every reachable state all open transactions can end without aborting one that did not fail: keys are claimed before version rows |
| EventInbox.SomeClear | src/common/events/event-inbox.ts:65-100 | some open transaction waits for nobody |
| EventInbox.NextKeepsInv | src/common/events/event-inbox.ts:54-121 | every step keeps locks exclusive, what transactions have seen true, and the tables consistent with the history |
| EventInbox.ExecuteKeepsInv | src/common/events/event-inbox.ts:54-121 | so does every run |
| EventInbox.CommitKeepsConsistent | src/common/events/queryable.ts:28-42 | publishing a transaction keeps inbox, versions and history in agreement |
| EventInbox.Database.ConsumeOnce | src/common/events/event-inbox.ts:54-121 | the answer and the tables of one call, by cases: thrown, repeated, stale, applied |
| EventInbox.Database.InPgTransaction | src/common/events/queryable.ts:28-42 | a call in its transaction commits all its writes or none and is a run of the interleaved machine |
| EventInbox.SerialRuns | src/common/events/queryable.ts:28-42 | the steps of one transaction alone lead to the committed result or back to the start |
| DocumentNumbering.GaplessSeries | src/common/numbering/document-numbering.ts:45-79 | however its emitters and those of series apart from it (other table, prefixes that do not extend each other, or other scope) interleave, commit and abort, the committed numbers of a series that starts empty are 1, 2, 3 and so on; they do not repeat exactly while at most 10^padding were committed |
| DocumentNumbering.AllSeriesGapless | src/common/numbering/document-numbering.ts:45-79 | in a family of series that are pairwise apart, with wildcard-free prefixes, every series is gapless at once |
| DocumentNumbering.NextAfterIssued | src/common/numbering/document-numbering.ts:62-78 | after the first n numbers the next one follows, for every n; from 10^padding on the same number comes again, because texts are compared |
| DocumentNumbering.FittingOrder | src/common/numbering/document-numbering.ts:62-64 | text order is numeric order while the numbers fit the padding |
| DocumentNumbering.MaxTextIsLargest | src/common/numbering/document-numbering.ts:62-64 | the text maximum is one of the texts and none is larger |
| DocumentNumbering.OverflowOrder | src/common/numbering/document-numbering.ts:62-64 | the first number that does not fit sorts before the last one that does |
| DocumentNumbering.LargestIssued | src/common/numbering/document-numbering.ts:62-75 | the text maximum of the first n numbers |
| DocumentNumbering.DistinctWhileFitting | src/common/numbering/document-numbering.ts:62-78 | the first n numbers are pairwise different exactly when n is at most 10^padding |
| DocumentNumbering.ParsePadded | src/common/numbering/document-numbering.ts:76 | reading a padded number gives the number |
| DocumentNumbering.LikePlain | src/common/numbering/document-numbering.ts:63-67 | a pattern of a prefix without wildcards matches exactly the texts that begin with it |
| DocumentNumbering.LikePercent | src/common/numbering/document-numbering.ts:63-67 | the percent sign at the end of a pattern stands for any text |
| DocumentNumbering.UnderscoreCounts | src/common/numbering/document-numbering.ts:63-67 | with an underscore in its prefix a series counts the numbers of others that have any character there |
| DocumentNumbering.SeriesByFields | src/common/numbering/document-numbering.ts:50-53 | no series begins with the prefix of another: prefix and year without dashes tell the series |
| DocumentNumbering.LockPerSeries | src/common/numbering/document-numbering.ts:53-59 | requests take the same lock text exactly if they are for one series of one column in one scope |
| DocumentNumbering.FirstProposal | src/common/numbering/document-numbering.ts:50-79 | the first proposal of a year is PROP-2026-000001 |
| DocumentNumbering.NextReceipt | src/common/numbering/document-numbering.ts:62-79 | after REC-2026-000041 comes REC-2026-000042 |
| DocumentNumbering.YearOfText | src/common/numbering/document-numbering.ts:26-30 | a date that begins with four digits is of that year |
| DocumentNumbering.NoYearInText | src/common/numbering/document-numbering.ts:26-30 | any other text is of the current one |
| DocumentNumbering.ParseSigned | src/common/numbering/document-numbering.ts:76 | an integer is read with its sign up to what is not a digit, and without digits there is none |
| DocumentNumbering.ApartNeverMatches | src/common/numbering/document-numbering.ts:52-67 | a record that carries whatever number of a series apart is never counted for the other |
| DocumentNumbering.Connection.NextDocumentNumber | src/common/numbering/document-numbering.ts:45-79 | the call leaves the lock taken and returns the number after the largest the transaction sees |
| DocumentNumbering.CallIsLockAndRead | src/common/numbering/document-numbering.ts:55-78 | a call is the lock step and the read step of the interleaved machine |
| DocumentNumbering.SeriesYearsAgree | src/common/numbering/document-numbering.ts:26-30 | a date given as an instant and as a text selects the same series exactly from the year 1000 on |
| DocumentNumbering.ApartByFields | src/common/numbering/document-numbering.ts:50-67 | series keep apart exactly if table, prefix, year or the value of one scope differ |
| DocumentNumbering.CallCommits | src/common/numbering/document-numbering.ts:55-79 | while nobody else holds the lock a transaction asks, inserts and commits, and its row is in the table |
| DocumentNumbering.CallAborts | src/common/numbering/document-numbering.ts:55-79 | one that gives up changes nothing, so its number is given again |
| DocumentNumbering.NextKeepsInv | src/common/numbering/document-numbering.ts:55-78 | every step keeps the series in order and only the holder of its lock adding to it |
| Money.MinorUnitsAreNearest | src/common/money/decimal-amount.util.ts:34-68 | a well-formed text becomes its value in minor units rounded to the nearest, ties away from zero: the same number that divideRounded gives |
| Money.AmountPattern | src/common/money/decimal-amount.util.ts:14 | the texts taken for amounts are exactly those of the pattern: a sign or none, digits, a point or none |
| Money.SpeltParts | src/common/money/decimal-amount.util.ts:54-67 | and say the value of their digits, with the minus sign if they have it, at as many places as follow the point |
| Money.ExactParse | src/common/money/decimal-amount.util.ts:202-212 | exact parsing succeeds exactly for valid scales and well-formed texts whose value is a whole number of minor units, and returns that number |
| Money.RoundTrip | src/common/money/decimal-amount.util.ts:34-82 | printing any integer at scale 0 to 12 and reading it, rounding or exactly, gives it back |
| Money.PrintedReadsBack | src/common/money/decimal-amount.util.ts:71-82 | what is printed is well formed, has exactly the scale's decimals and is worth the minor units |
| Money.NormalizeIdempotent | src/common/money/decimal-amount.util.ts:97-99 | the canonical form is its own canonical form |
| Rounding.DivideRoundedIff | src/common/money/decimal-amount.util.ts:242-259 | the result is the one integer nearest to the quotient, ties away from zero or to even by mode |
| Rounding.RoundedMonotone | src/common/money/decimal-amount.util.ts:242-259 | a larger numerator never has a smaller result |
| Rounding.RatesOfPartsAndWhole | src/common/money/decimal-amount.util.ts:262-273 | rounding the rate on each of n amounts or once on their sum differs by at most (n + 1) / 2 |
| Rounding.RateWithinAmount | src/common/money/decimal-amount.util.ts:262-268 | a rate from 0 to 100 % of a non-negative amount stays between 0 and the amount |
| Rounding.RateMonotone | src/common/money/decimal-amount.util.ts:262-268 | monotone in amount and in rate |
| Allocation.AllocateProportionally | src/common/money/decimal-amount.util.ts:284-292 | fails exactly without parts, with a negative weight or with weights that sum to zero; otherwise the parts sum to the total, all but the first are truncated shares, none has the opposite sign and the residue is at most count - 1 |
| Allocation.AllocationUnique | src/common/money/decimal-amount.util.ts:284-292 | those conditions determine the parts |
| Allocation.ResidueBound | src/common/money/decimal-amount.util.ts:289-290 | what truncation leaves has the sign of the total and is below the number of parts |
| Allocation.SplitEvenly | src/common/money/decimal-amount.util.ts:295-301 | equal parts, the remainder on the first |
| Allocation.SumMinor | src/common/money/decimal-amount.util.ts:271-273 | the sum of the values |
| MoneyInput.PlainByParts | src/common/money/exact-amount-input.util.ts:30 | the pattern by parts: up to sixteen digits, alone or before a point and up to `scale` more |
| MoneyInput.ThrowsExactly | src/common/money/exact-amount-input.util.ts:21-35 | throws exactly at scale 0, where the pattern does not compile, and above 12 on a text of the pattern, where normalising refuses the scale |
| MoneyInput.ThrowingScales | src/common/money/exact-amount-input.util.ts:30-33 | both happen: text 1 at scale 0 and at scale 13 |
| MoneyInput.ExactAtEveryScale | src/common/money/exact-amount-input.util.ts:21-35 | at scales 1 to 12 the answer on a text of the pattern is that of exact parsing for a positive amount, in canonical form; on any other text there is none |
| MoneyInput.ParsersAgree | src/common/money/exact-amount-input.util.ts:21-35 | at scale 2 that is the answer of parseMoney |
| MoneyInput.CanonicalAccepted | src/common/money/exact-amount-input.util.ts:21-35 | every positive amount of the column, printed, is accepted unchanged by both parsers |
| MoneyInput.PlainAmountInRange | src/common/money/exact-amount-input.util.ts:30-33 | sixteen integer digits and two decimals never leave the column's range |
| MoneyInput.ZeroTextIffZero | src/common/money/exact-amount-input.util.ts:34 | the zero pattern matches the canonical text exactly of zero |
| MoneyInput.AcceptedRateWithinAmount | src/common/money/decimal-amount.util.ts:233-239 | an accepted rate never charges more than a non-negative amount |
| MoneyInput.RateTextCharges | src/common/money/decimal-amount.util.ts:233-268 | an accepted text charges its percentage of the amount, rounded once: amount times value over one hundred |
| MoneyInput.RateAccepted | src/common/money/decimal-amount.util.ts:233-239 | accepted are exactly the well-formed texts of numbers from 0 to 100 with at most six significant decimals |
| MoneyInput.ToMinorUnitsByInput | src/common/money/decimal-amount.util.ts:34-68 | nothing and blank texts are zero, integers whole units, well-formed texts the nearest amount, and the rest is refused |
| MoneyInput.ExactByInput | src/common/money/decimal-amount.util.ts:202-212 | exact parsing refuses nothing and takes integers as whole units |
| MoneyInput.CurrencyByLetters | src/common/money/decimal-amount.util.ts:158-163 | two currencies are known, in any case and with white space around, with two decimals |
| MoneyInput.MoneyByOptions | src/common/money/decimal-amount.util.ts:222-230 | an amount is accepted exactly if it is exact at two decimals, of an admitted sign and within the limit |
| MoneyInput.ExactRefusedAs | src/common/money/decimal-amount.util.ts:202-212 | exact parsing refuses a scale, what is not a number, or a number with too many decimals |
| MoneyInput.RefusedAs | src/common/money/decimal-amount.util.ts:158-239 | money and rates refuse a currency, what is not a number, or a number that is not admitted |
| MoneyInput.DefaultsAccept | src/common/money/decimal-amount.util.ts:222-230 | by default from zero to the largest amount of a column |
| MoneyInput.WholeUnits | src/common/money/decimal-amount.util.ts:40-41 | an integer counts as that many whole units |
| SeedSync.Target.SyncSeedData | src/database/seed-sync.ts:304-382 | succeeds exactly when there is something to load, the target has the tables and columns, no row is wider than a statement, the validated keys hold over what is loaded, no column of a sequence has a negative maximum, and no statement fails for reasons of its own; then the manifest tables hold the source's rows, all else but the log of loads is unchanged, the keys are the original ones and hold, and sequences are past every copied number; otherwise the target is as it was |
| SeedSync.Target.LoadAll | src/database/seed-sync.ts:328-374 | the statements between BEGIN and COMMIT reach that state, on exactly that condition |
| SeedSync.Target.Truncate | src/database/seed-sync.ts:344-346 | its precondition, that no key of another table points to a manifest table, is met when the load empties the tables without CASCADE |
| SeedSync.Target.CopyTable | src/database/seed-sync.ts:160-205 | the rows of a table in order, none lost or repeated; no rows for a table without columns to copy; fails exactly when a column is missing, one row alone is too wide, or a statement fails for reasons of its own |
| SeedSync.Target.CopyRows | src/database/seed-sync.ts:183-201 | the loop over chunks does so, with the number of statements that the rows need |
| SeedSync.Target.CopyChunk | src/database/seed-sync.ts:186-200 | one chunk appends the next rows; its size never makes it fail |
| SeedSync.ChunkSendable | src/database/seed-sync.ts:183-200 | a chunk stays within the 65535 parameters of a statement exactly when one row does |
| SeedSync.Target.CopyTables | src/database/seed-sync.ts:348-357 | every table of the manifest and no other; the count is of all rows copied; succeeds exactly when all tables can be written and no statement fails |
| SeedSync.Target.ResyncSequences | src/database/seed-sync.ts:208-249 | each sequence of the manifest is set one above the largest number of its column, or to 1, and fails exactly when that is below 1 |
| SeedSync.NextIsNext | src/database/seed-sync.ts:243-246 | that is above every number of the column, and right after one of them or 1 |
| SeedSync.SequencesAhead | src/database/seed-sync.ts:208-249 | after a load no sequence of the manifest gives a number that its column has |
| SeedSync.Target.DropKeys | src/database/seed-sync.ts:328-335 | drops exactly the keys given unless a statement fails |
| SeedSync.Target.AddKeys | src/database/seed-sync.ts:363-367 | puts them back exactly if all those that are validated hold and no statement fails |
| SeedSync.Target.Open | src/database/seed-sync.ts:328-346 | keys dropped, triggers off, tables empty and sequences restarted; succeeds exactly when the target has the tables and no statement fails |
| SeedSync.Target.Close | src/database/seed-sync.ts:359-374 | sequences, triggers, keys, log and COMMIT, with the exact condition of success |
| SeedSync.HoldsByRows | src/database/seed-sync.ts:363-367 | what a key promises, row by row: whoever has values in all its columns has a row with the same values in the other table |
| SeedSync.AllKeysHold | src/database/seed-sync.ts:126-138 | if all keys held before, all hold after, those between runtime tables too |
| SeedSync.ExactCopy | src/database/seed-sync.ts:114-121 | every row arrives, in order, with exactly its columns that are not generated and the source's values, null where there is none, if the table has such a column |
| SeedSync.CopiedArePlain | src/database/seed-sync.ts:114-121 | what is copied are all the columns that are not generated |
| SeedSync.WholeOrEmpty | src/database/seed-sync.ts:167-205 | a table with rows has as many after the load exactly when not all its columns are generated; otherwise it is empty |
| SeedSync.CountIsComplete | src/database/seed-sync.ts:348-357 | the logged count is that of all source rows exactly when every table has a column that is not generated |
| SeedSync.GeneratedTableStaysEmpty | src/database/seed-sync.ts:167 | a table of one generated column is in the manifest, loses its rows and counts none |
| SeedSync.WritableByFields | src/database/seed-sync.ts:171-205 | what can be written, column by column: the target has every column that is not generated, of which there are at most 65535, or there is nothing to copy |
| SeedSync.ChunkFits | src/database/seed-sync.ts:183 | a statement has at most 30000 parameters, or is a single row |
| SeedSync.ChunkIsLargest | src/database/seed-sync.ts:183 | with one row more a full statement would have more than 30000 |
| SeedSync.ManifestOf | src/database/seed-sync.ts:76-88 | the manifest is the tables with rows outside excluded schemas and tracking tables |
| Calendar.DateOfDayOf | src/common/time/billing-period.util.ts:12-14 | day numbers and dates of the proleptic Gregorian calendar correspond one to one |
| Calendar.DayOrder | src/common/time/business-date.ts:31-33 | a date is earlier exactly when year, month and day in turn are |
| BillingPeriod.LastDay | src/common/time/billing-period.util.ts:12-14 | day zero of the next month is the last day of the month |
| BillingPeriod.LandsInMonth | src/common/time/billing-period.util.ts:20-44 | the result is `months` months later exactly when the target year is outside 0 to 99; its day is the reference's cut to the month, its time of day the same |
| BillingPeriod.EarlyYearMisses | src/common/time/billing-period.util.ts:20-44 | an input on which it is not: 15 December 98 plus one month is 15 January 1999 |
| BillingPeriod.DayNonDecreasing | src/common/time/billing-period.util.ts:28-44 | a later reference day never lands on an earlier day |
| BillingPeriod.InstantsMayCross | src/common/time/billing-period.util.ts:28-44 | not so for instants: two references whose results come in the opposite order |
| BillingPeriod.InstantsCrossExactly | src/common/time/billing-period.util.ts:28-44 | outside the target years 0 to 99 two instants in order come out in the opposite order exactly if both are in one month, on different days that are cut to the same one, and the later has the earlier time of day |
| BillingPeriod.IncreasingInMonths | src/common/time/billing-period.util.ts:28-44 | more months end strictly later |
| BillingPeriod.ThereAndBack | src/common/time/billing-period.util.ts:28-44 | adding and subtracting the same months returns to the reference exactly when the day was not cut |
| BillingPeriod.PeriodHasEnd | src/common/time/billing-period.util.ts:50-56 | a period of one month or more never throws and ends after its start; one of none or fewer throws, unless it leads into the years 0 to 99 |
| BusinessDate.PastDueIsEarlier | src/common/time/business-date.ts:31-33 | for years 0 to 9999 text order of dates is calendar order |
| BusinessDate.AddDaysAdds | src/common/time/business-date.ts:36-40 | for years 100 to 9999 days are added on the calendar |
| BusinessDate.AddDaysShape | src/common/time/business-date.ts:36-40 | the sum is a text YYYY-MM-DD exactly when its year has at most four digits |
| BusinessDate.FarDates | src/common/time/business-date.ts:36-40 | in other years the text is a sign, six digits and the month: the day is cut off |
| BusinessDate.AddDaysComposes | src/common/time/business-date.ts:36-40 | adding days twice is adding their sum |
| BusinessDate.AddDaysUndone | src/common/time/business-date.ts:36-40 | adding and taking away days gives the same text |
| BusinessDate.PastDueAfterDays | src/common/time/business-date.ts:31-40 | a date is past due k days later exactly when k is positive |
| Migrations.Database.RunSql | scripts/db/run-sql.ts:16-108 | the script does a prefix of its files, all of them exactly when it succeeds; without files it fails |
| Migrations.Database.RunFile | scripts/db/run-sql.ts:38-100 | one file is done whole, SQL and ledger row together, or the database is as it was |
| Migrations.Database.ApplyPendingMigrations | src/database/database-seeder.service.ts:118-165 | succeeds exactly when every file does, with that state and the number of files executed; otherwise the database is as it was |
| Migrations.ExecutorsAgree | src/database/database-seeder.service.ts:118-165 | on files that only go up both executors do the same |
| Migrations.FailureLeavesPrefix | scripts/db/run-sql.ts:38-100 | what a failing run leaves is the whole effect of the files before the failing one |
| Migrations.RerunDoesNothing | scripts/db/run-sql.ts:62-75 | repeating ups that succeeded executes no SQL and changes nothing, whichever executor repeats them |
| Migrations.LedgerTellsLastOperation | scripts/db/run-sql.ts:44-53 | over any runs of ups and downs, failing ones included, a ledger row is there exactly when the last successful file on it was an up, with its checksum |
| Migrations.LedgerByNames | scripts/db/run-sql.ts:44-53 | by names: the row of x.sql is there exactly when the last successful file among x.sql and x.down.sql was x.sql, with its checksum |
| Migrations.UpAfterDown | scripts/db/run-sql.ts:41-96 | after x.down.sql, x.sql is executed again, unless a probe says that its objects are there |
| Migrations.DownRevertsUp | scripts/db/run-sql.ts:160-167 | x.down.sql takes back x.sql |
| Migrations.FilesOfRow | scripts/db/run-sql.ts:160-167 | and no other file has to do with its row |
| Migrations.FirstProbe | scripts/db/run-sql.ts:152-158 | the answer is that of the first probe for the file, and no without one |
| SqlRedaction.ContentsNeverShow | src/observability/sql-redaction.ts:37-46 | statements that differ only in the contents of their literals have the same output, adjacent literals included |
| SqlRedaction.PiecesReduceToShape | src/observability/sql-redaction.ts:41 | replacing literals leaves the texts between them and a placeholder for each run of adjacent literals |
| SqlRedaction.OnePlaceholderEach | src/observability/sql-redaction.ts:41 | the output never has more placeholders than there are literals, and as many exactly when no two literals touch |
| SqlRedaction.CloseAtEndOfContent | src/observability/sql-redaction.ts:38-41 | a literal with doubled quotes is matched to its end |
| SqlRedaction.UnclosedShows | src/observability/sql-redaction.ts:41 | of a literal that never ends the text behind its last doubled quote stays |
| Texts.BlankCharacters | src/observability/sql-redaction.ts:50 | white space is that of ECMAScript, by code point |
| SqlRedaction.WordCharacters | src/observability/sql-redaction.ts:44 | by code point, tags are of letters, digits and underscores, and do not begin with a digit |
| SqlRedaction.AdjacentMerge | src/observability/sql-redaction.ts:38-41 | two literals with nothing between them are one literal with a quote inside |
| SqlBlocks.BodiesNeverShow | src/observability/sql-redaction.ts:37-46 | with any number of blocks and literals, and literals inside blocks, the output depends neither on tags, bodies nor contents, provided that no mark begins inside a body and none opens in the text before a block |
| SqlBlocks.EndsAtOwnMark | src/observability/sql-redaction.ts:44 | a block is replaced up to its own closing mark exactly when neither that mark nor two dollar signs begin inside its body, overlap with the closing mark included; otherwise it ends too soon |
| SqlBlocks.BlockReplaced | src/observability/sql-redaction.ts:42-44 | such a block leaves one placeholder |
| SqlBlocks.ParametersCloseNothing | src/observability/sql-redaction.ts:44 | bodies whose dollar signs are those of parameters such as $1 are among them |
| SqlBlocks.DoubledDollarShows | src/observability/sql-redaction.ts:44 | two dollar signs in the body of a tagged block end it: replacing blocks leaves what follows them in the body |
| SqlBlocks.DoubledDollarLeaks | src/observability/sql-redaction.ts:37-46 | an input with that in its output |
| SqlBlocks.ApostropheShows | src/observability/sql-redaction.ts:41-44 | an apostrophe in a body pairs with the quote of the next literal: both replacements leave its content |
| SqlBlocks.ApostropheLeaks | src/observability/sql-redaction.ts:37-46 | an input with that in its output |
| SqlExposure.ShowsExactly | src/observability/sql-redaction.ts:37-56 | the output, as far as it is not cut, tells which of two texts stands at a place exactly if the place is neither between an odd number of apostrophes and another one, nor in a block of what the replacement of literals leaves; for all statements, and texts without apostrophes, dollar signs and white space that are no part of a mark |
| SqlExposure.OthersShow | src/observability/sql-redaction.ts:37-51 | at such a place the text is in the output between what is left of the two parts of the statement |
| SqlExposure.LiteralHiddenExactly | src/observability/sql-redaction.ts:41 | replacing literals hides which of two contents a literal has exactly when the number of apostrophes before it is even, for all statements |
| SqlExposure.LiteralHides | src/observability/sql-redaction.ts:41 | a text between an odd number of apostrophes and another one does not influence the result |
| SqlExposure.LiteralsPass | src/observability/sql-redaction.ts:41 | every other text stays between the results for the two parts |
| SqlExposure.BlockHides | src/observability/sql-redaction.ts:44 | a text in a block that opens before it and closes behind it does not influence the result |
| SqlExposure.BlocksPass | src/observability/sql-redaction.ts:44 | every other text stays between the results for the two parts |
| SqlExposure.MarkExposes | src/observability/sql-redaction.ts:37-46 | a mark in the text followed by two dollar signs: what follows these is not hidden, be they meant as the opening of a block or part of a tagged body |
| SqlExposure.OddQuotesExpose | src/observability/sql-redaction.ts:37-46 | nor is the content of a literal behind an odd number of apostrophes, if there are no dollar signs before it |
| SqlExposure.CommentLeaks | src/observability/sql-redaction.ts:37-46 | an input with an apostrophe in a comment and a literal that shows |
| SqlExposure.QuotedNameLeaks | src/observability/sql-redaction.ts:37-46 | an input with an apostrophe in a quoted identifier and a literal that shows |
| SqlExposure.NameLeaks | src/observability/sql-redaction.ts:37-46 | an input with dollar signs in an identifier and a body that shows |
| SqlRedaction.LengthLimited | src/observability/sql-redaction.ts:53-56 | the output has at most 1024 characters; one that is longer is cut to its first 1012 and the mark |
| SqlRedaction.CollapsedOnce | src/observability/sql-redaction.ts:49-51 | white space is single spaces |
| AccessRegistry.CountersAreExact | src/common/observability/http-access-registry.service.ts:50-153 | after any calls each retained route, screen and screen route has the counts of the whole history, statuses add up, caps hold, and a flag is set exactly when a screen or screen route is missing |
| AccessRegistry.HttpAccessRegistry.Record | src/common/observability/http-access-registry.service.ts:65-90 | the registry is at all times the counters of its history |
| AccessRegistry.HttpAccessRegistry.RecordTally | src/common/observability/http-access-registry.service.ts:72-89 | counts the call on its route unless the route is new and there is no room |
| AccessRegistry.HttpAccessRegistry.RecordScreen | src/common/observability/http-access-registry.service.ts:116-153 | counts the call on its screen and screen route, or sets the flag that says what is missing |
| AccessRegistry.CountedScreenOk | src/common/observability/http-access-registry.service.ts:140-152 | counting a call keeps a screen exact |
| AccessRegistry.CountedTallyOk | src/common/observability/http-access-registry.service.ts:75-89 | counting a call keeps a route exact |
| AccessRegistry.RouteKeysDiffer | src/common/observability/http-access-registry.service.ts:72 | routes of verbs without spaces never share a counter |
| AccessRegistry.Caps | src/common/observability/http-access-registry.service.ts:51-60 | at most 2000 routes and 2000 screens, and 40 routes of a screen; nothing is left out, and no flag says so, while there is room |
| AccessRegistry.ScreenKeysDiffer | src/common/observability/http-access-registry.service.ts:122 | screens of clients without spaces, and no others are admitted, never share a counter |
| Compliance.VerifiedIffEvidenced | scripts/compliance/evaluator.ts:359-412 | an item is VERIFIED exactly when it is not an approved exclusion, not blocked, has something mapped, its test files exist, and every matching run in the accepted sources passed |
| Compliance.UseCaseVerified | scripts/compliance/evaluator.ts:414-422 | a use case moreover must not be marked as not implemented |
| ComplianceRules.StatusByFields | scripts/compliance/evaluator.ts:359-412 | each of the five statuses exactly under its condition, and what is counted |
| ComplianceRules.ReasonsTell | scripts/compliance/evaluator.ts:371-398 | the reasons of an item are exactly those that are founded: scope, missing files, entries that did not pass, the block, or nothing mapped |
| ComplianceRules.ApprovalByFields | scripts/compliance/evaluator.ts:350-357 | an exclusion is approved exactly if reason, impact and approver are more than white space |
| ComplianceRules.NotImplementedIsDeclared | scripts/compliance/evaluator.ts:414-422 | what is marked as not implemented is at most declared |
| Compliance.TestPassesIffProven | scripts/compliance/evaluator.ts:273-322 | a test passes exactly when it ran, its matches are one test, and every run passed |
| ComplianceRules.AssertionByName | scripts/compliance/evaluator.ts:281-287 | an assertion is a run of a test if its full name or its title begins with the name |
| ComplianceRules.FileByPath | scripts/compliance/evaluator.ts:275-280 | results are of a file exactly if their path is it or ends in it at a directory; a leading ./ does not matter |
| ComplianceRules.VerdictByRuns | scripts/compliance/evaluator.ts:302-321 | not run without runs, ambiguous with several tests, skipped with a skipped and no failed run, passed if every run passed |
| Compliance.CommandPassesIffProven | scripts/compliance/evaluator.ts:324-348 | a command passes exactly when it ran and every run ended with 0 |
| Compliance.AcceptedAreOfCandidate | scripts/compliance/evaluator.ts:234-267 | accepted sources carry the candidate's stamp and unaltered results |
| ComplianceRules.AcceptedExactly | scripts/compliance/evaluator.ts:234-267 | a source counts exactly if its stamp is of the candidate and of a known kind, with unaltered results or a named command with an exit code |
| Compliance.RejectedSourcesCountNothing | scripts/compliance/evaluator.ts:240-254 | rejected sources, wherever they stand, change nothing |
| Compliance.AcceptSources | scripts/compliance/evaluator.ts:234-267 | the accepted sources in order, and a reason or none for each source |
| Compliance.FindTest | scripts/compliance/evaluator.ts:273-322 | the entry of a test: its reference as written, and the verdict over all matches in sources, files and assertions |
| Compliance.Summarize | scripts/compliance/evaluator.ts:424-447 | the counters of the list, those of each status included |
| Compliance.TotalsAddUp | scripts/compliance/evaluator.ts:424-447 | in both lists total is the number of items, is included plus pending plus deferred, and is the sum over the five statuses |
| Compliance.Evaluate | scripts/compliance/evaluator.ts:449-533 | strictPass holds exactly when nothing is invalid or undecided and every counted item is VERIFIED |
| Compliance.NoProblems | scripts/compliance/evaluator.ts:449-457 | no requirement is invalid exactly when all are complete and their keys differ |
| ComplianceRules.RejectedFor | scripts/compliance/evaluator.ts:243-253 | which reason a rejected source is given |
| ComplianceRules.CommandByRuns | scripts/compliance/evaluator.ts:324-348 | a command is not run without runs, passed if every run ended with 0, otherwise failed, and shows the stamp of one of its runs |
| ComplianceRules.ExcusedSays | scripts/compliance/evaluator.ts:372-381 | an excused item names who approved it and why, and shows no evidence |
| ComplianceRules.ItemsByFields | scripts/compliance/evaluator.ts:460-503 | the i-th item has identifier, package and scope of the i-th requirement or use case, and an entry for each of its tests and commands if it shows any |
| ComplianceRules.CountersTell | scripts/compliance/evaluator.ts:424-443 | each counter is the number of items that meet its condition |
| ComplianceRules.RequirementInOrder | scripts/compliance/evaluator.ts:199-232 | a requirement is in order exactly if its texts are more than white space and its tests have a file and a name |
| ComplianceRules.UseCaseInOrder | scripts/compliance/evaluator.ts:182-197 | a use case is in order unless it claims coverage without tests, or is not implemented without a note |
| ComplianceRules.KeysByFields | scripts/compliance/evaluator.ts:454 | requirements have the same key exactly if identifier and package are the same |
| Compliance.GroupById | scripts/compliance/evaluator.ts:504-506 | one group for each identifier, with its items in order |
| Compliance.Grouped | scripts/compliance/evaluator.ts:504-514 | the packages and the status of each group |
| Compliance.IdVerified | scripts/compliance/evaluator.ts:503-514 | an identifier is VERIFIED exactly when every requirement that has it is, whatever its package |
| Compliance.GroupVerified | scripts/compliance/evaluator.ts:503-514 | a group is VERIFIED exactly when all its items are |
| ComplianceRules.GroupHasWorst | scripts/compliance/evaluator.ts:507-514 | a group has the worst status of its items |

## Left out

- SVG and data-URI output, and UTF-8 encoding of the content: the QR model starts from bytes.
- The penalty score: a parameter of the model; the proofs hold for any score.
- QrPlacement.Matrix: modules and reservations are two-dimensional arrays of booleans, where the code has flat typed arrays; the index arithmetic is not modelled.
- ReedSolomon.BuildTables: the tables are sequences of bytes held by a value, not global typed arrays.
- EventInbox.Database.ConsumeOnce: topic and schema version are columns that no branch reads and are not modelled; the effect is whether it works, and its own locks on other tables are not part of the waiting.
- The Sequelize form of `Queryable`, and PostgreSQL itself: a row that another transaction wrote makes a step wait, and tables are maps or sequences.
- DocumentNumbering.NextNumber: numbers are unbounded; beyond 2^53 a JavaScript number is not exact. Texts compare by character, which is the order of the C collation on UTF-8; JavaScript and other collations compare otherwise beyond ASCII.
- DocumentNumbering.GaplessSeries: callers insert a number before they ask for the next one of the series or commit; rows that other code writes without asking for a number do not match the series; a unique constraint that would refuse a repeated number is not modelled.
- `number` inputs of the money functions (`toFixed` and the tolerance): floating point. Texts and integers are modelled.
- MoneyInput.ParseExactPositiveAmount: scales are natural numbers; negative and fractional ones are not modelled.
- MoneyInput.ParseMoney: currency codes are put in upper case letter by letter, which covers the letters of the codes in the table.
- SeedSync.Target.Insert: a row holds the copied columns only; columns that the target computes or defaults, types, unique constraints and check constraints are among the faults a statement may have.
- SeedSync.Target.RecordAndCommit: the statements that create the log table and write the load count as one, and COMMIT as one more; BEGIN is taken not to fail.
- SeedSync.Target.SyncSeedData: the source does not change while it is read, and reading it does not fail; catalog queries are the maps of the model.
- `businessDate` and time zones; invalid and non-integer arguments that types exclude; dates beyond the range of `Date`.
- BusinessDate.AddDays: only texts of the shape YYYY-MM-DD.
- Migrations.Database.RunSql: SQL texts are partial functions on the schema that do not touch the ledger; search paths, file reading and connection handling are not modelled, and creating the ledger table is taken as done.
- SqlBlocks.BodiesNeverShow: its conditions suffice; for a single place in a statement `SqlExposure.ShowsExactly` has the exact one.
- SqlExposure.ShowsExactly: texts that have apostrophes, dollar signs or white space themselves, and single words directly behind a word or a dollar sign, which could be part of a mark.
- SqlRedaction.LengthLimited: a Dafny character is a Unicode scalar value; JavaScript counts the length in UTF-16 units, so characters outside the basic plane count one here and two there.
- AccessRegistry.HttpAccessRegistry.Record: timestamps and the sorted snapshot.
- Compliance.Grouped: the lines by identifier are a map, without their alphabetical order.
- Compliance.Evaluate: texts of reasons and problems are values, not messages; problems are counted; malformed shapes that types exclude; the fields of an entry that are copied from its stamp are the stamp.
- Segmentation, campaign transitions, role mapping, guards, retries and the file-size check: small decision tables.
- Models, modules, controllers, schemas, mappers, telemetry, logging, mail and the loading scripts: plumbing around libraries.
