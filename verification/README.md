# OpenQBW: models and proofs

OpenQBW reads QuickBooks company files without writing to them. This project models the parts of it whose
correctness is hard to see, and proves what the rest of the program relies on:

- **Page recovery** (`ApCipher`, `KeySchedule`, `BvOracles`, `RecoveryTheorems`, `RecoveryBound`, `RecoveryLimits`,
  `Witnesses`, `WitnessTheorems`). A page is obfuscated sector by sector as `plain + base + i * step` modulo 256. The recovery guesses each
  `step` from a histogram peak and the page's `bv` from an anchor, a zero byte or a count of zeros. Everything rests on
  the step guess not depending on the base. That is proved, and with it soundness and completeness of every search, a
  quantitative bound under which pages are recovered exactly, and the tightness of that bound.
- **The `drec` record codec** (`Drec`, `DrecRecords`, `DrecMeaning`, `DrecTheorems`, `DrecBuilding`, `LegacyBalance`).
  Parser and encoder undo each other in both directions, the grammar is unambiguous, every value is what its bytes
  spell, and cut and overlong records are told apart.
- **The ledger** (`Accounting`, `Ledger`, `LedgerSums`, `TrialBalances`, `LedgerTheorems`, `ReportValidation`,
  `Hierarchy`, `HierarchyNames`). Double entry survives every grouping of the postings, the fiscal-year form moves
  value without losing any, reports do not depend on the order of the postings, and a ledger's own reports pass the
  validators.
- **Hashing and the worker pool** (`Sha256`, `WorkerPool`). The buffering hash object computes the one-shot digest
  for every split of the message. The pool is a state machine over interleaved steps.
- **Reconciliation** (`CsvText`, `CsvTheorems`, `CsvErrors`, `Money`, `MoneyShapes`, `Multisets`, `Matching`,
  `PostingTypes`, `NameOrder`, `TrialBalanceMatching`, `ControlNoise`, `Manifest`, `ManifestTheorems`, `ManifestErrors`,
  `Nonoverlap`). CSV and money texts read back, two CSV readers are compared exactly, matching is multiset algebra,
  noise subtraction one page at a time refines the batch form, and a control manifest reads back as the transitions
  that were written.

Loops of the program are loops here, proved against specification functions; the theorems are about those functions.
`Outcomes`, `Integers`, `Bytes`, `Words`, `Sequences`, `Tallies` and `SortedMaps` hold what the models share.

## What turned out false

Where the code does not do what its comments or its shape suggest, the code is modelled as it is, and the exact
condition is proved.

- `recover_bv_any` accepts the zero-byte guess as soon as five percent of the body equals the first byte. On a sparse
  page without an anchor it is right exactly when the first byte is zero or rare (`RecoveryBound.AnyOnSparsePage`);
  `RecoveryLimits.SevensAreMisread` gives a page it misreads although the exhaustive search recovers it.
- The bound of a quarter of non-zero bytes per sector cannot be raised (`RecoveryLimits.QuarterIsTooMany`).
- A record `encode_drec` writes need not parse: a string bound near the top of `usize` overflows the parser's bound
  arithmetic (`DrecTheorems.EncodeThenParse`, `DrecTheorems.HugeBoundIsNotParsed`).
- The hierarchy check can panic instead of naming a missing parent: exactly when the first chain that reaches no root
  runs off above the account's own parent (`Hierarchy.PanicsExactly`, `Hierarchy.PanicExample`).
- A row without fields is written as an empty line and comes back as one empty field (`CsvTheorems.WrittenRowsReadBack`).
- On texts the native CSV reader accepts, the two readers disagree exactly if a CR outside quotes is followed by neither
  an LF nor the end of the text, or the text ends right behind a quoted field whose last character is a CR, which the
  native reader drops. On texts it rejects they give the same error, unless a quote stands directly behind an unquoted
  CR: then they agree exactly if the text from that quote on has a bare quote by itself, and both happens
  (`CsvTheorems.ReadersAgreeExactly`, `CsvTheorems.QuotedCrAtEndIsLost`, `CsvTheorems.CrThenQuoteAccepted`,
  `CsvTheorems.CrThenQuoteRejected`).
- A trial balance in fiscal-year form need not pass the comparison with the general ledger of its own date: it does
  exactly if, for every profit-and-loss account, the postings before the fiscal year sum to zero
  (`ReportValidation.FiscalReportsAgreeExactly`, `ReportValidation.FiscalReportsMayDisagree`).
- The least 64-bit amount is printed but not read back (`MoneyShapes.FormatThenParse`).

## Model

| member | source | states |
|---|---|---|
| ApCipher.RecoverStep | crates/openqbw/src/bv_recovery.rs:225-246 | the histogram loop returns the first step whose decoded sector has the highest peak |
| ApCipher.StepIgnoresBase | crates/openqbw/src/bv_recovery.rs:225-246 | the recovered step is the same for all 256 bases |
| ApCipher.BaseMoves | crates/openqbw/src/bv_recovery.rs:443-470 | changing `bv` moves every sector base by the same amount |
| ApCipher.DeobfuscateWithBv | crates/openqbw/src/bv_recovery.rs:443-470 | every body byte loses its sector base and its multiple of the recovered step; the trailer is copied |
| KeySchedule.BaseSchedule | crates/openqbw/src/bv_recovery.rs:443-470 | the sector bases by recurrence: they start at `bv`, climb by one a sector, and from page to page by one, minus three or 29 |
| KeySchedule.DecodedByte | crates/openqbw/src/bv_recovery.rs:443-470 | every byte of a decoded page as one integer expression modulo 256 of the raw byte, `bv`, page number, position and step; trailer bytes are the raw ones |
| KeySchedule.StepIsLeastBest | crates/openqbw/src/bv_recovery.rs:225-246 | the recovered step is the least of those with the highest peak, under every base |
| KeySchedule.PeakIsCommonest | crates/openqbw/src/bv_recovery.rs:225-246 | a peak is the multiplicity of the most common byte |
| BvOracles.RecoverBvBrute | crates/openqbw/src/bv_recovery.rs:266-314 | the per-sector histograms give, for every candidate, the zeros of the body the decoder would produce; the first greatest total wins if it reaches 204 |
| BvOracles.AnchorPresentWithBv | crates/openqbw/src/bv_recovery.rs:190-217 | on the table built once, a candidate passes exactly when the body decoded with that candidate contains the anchor |
| BvOracles.RecoverBvQbData | crates/openqbw/src/bv_recovery.rs:130-180 | the search returns the oracle's candidate if it shows the anchor, else the least one that does, and refuses other page sizes |
| BvOracles.MagicPresentWithBv | crates/openqbw/src/bv_recovery.rs:340-388 | a candidate passes exactly when the body decoded with it contains the allocation magic |
| BvOracles.RecoverBvApage | crates/openqbw/src/bv_recovery.rs:340-388 | the least candidate whose decoded body contains the magic, if any |
| BvOracles.ContainsSubseq | crates/openqbw/src/bv_recovery.rs:391-405 | true exactly when the needle stands somewhere; an empty needle never does |
| KeySchedule.ContainsIsInfix | crates/openqbw/src/bv_recovery.rs:391-405 | found means: something, the needle, something, and a needle that is not empty |
| BvOracles.RecoverBvAny | crates/openqbw/src/bv_recovery.rs:421-437 | the cascade over the three oracles with its own five percent test |
| RecoveryTheorems.OracleIsTautology | crates/openqbw/src/bv_recovery.rs:118-124 | the zero-byte oracle is the one candidate that turns the first body byte into zero, on every page |
| RecoveryTheorems.BodyMoves | crates/openqbw/src/bv_recovery.rs:225-314 | the bodies decoded with two candidates differ by a constant in every byte |
| RecoveryTheorems.ZerosAreHistogram | crates/openqbw/src/bv_recovery.rs:266-314 | the zeros of a candidate are the histogram entry of one fixed decoding |
| RecoveryTheorems.CandidatesShareTheBody | crates/openqbw/src/bv_recovery.rs:266-314 | the 256 totals add up to 4080 |
| RecoveryTheorems.FewCandidatesPass | crates/openqbw/src/bv_recovery.rs:266-314 | at most 20 candidates reach the threshold |
| RecoveryTheorems.BruteIsLeastBest | crates/openqbw/src/bv_recovery.rs:266-314 | a result exactly when it reaches the threshold, no candidate has more zeros and no smaller one as many; none exactly when all are below |
| RecoveryTheorems.QbDataSoundAndComplete | crates/openqbw/src/bv_recovery.rs:130-217 | a result shows the anchor in the real decoder's body; none means no candidate does |
| RecoveryTheorems.ApageSoundAndComplete | crates/openqbw/src/bv_recovery.rs:340-388 | the same for the allocation magic, and the result is the least |
| RecoveryTheorems.ThresholdsAgree | crates/openqbw/src/bv_recovery.rs:421-437 | the two spellings of five percent are the same count |
| RecoveryTheorems.AnyGivesUpExactly | crates/openqbw/src/bv_recovery.rs:421-437 | the cascade gives up exactly when no candidate shows the anchor and none shows 204 zeros |
| RecoveryBound.NeighboursDiffer | crates/openqbw/src/bv_recovery.rs:225-246 | under a wrong step, neighbouring zero bytes never decode alike |
| RecoveryBound.WrongPeak | crates/openqbw/src/bv_recovery.rs:225-246 | a wrong step's peak is at most half the sector plus its non-zero bytes |
| RecoveryBound.SparseSectorStep | crates/openqbw/src/bv_recovery.rs:225-246 | with fewer than a quarter non-zero bytes the true step is recovered |
| RecoveryBound.SparsePageRecovered | crates/openqbw/src/bv_recovery.rs:266-470 | for every page number, `bv` and steps, a page with sparse sectors is recovered exactly: the search finds `bv` and the decoder returns the plaintext |
| RecoveryBound.EncodedPageEncodes | crates/openqbw/src/bv_recovery.rs:443-470 | every page, under every `bv` and all steps, has an obfuscated form |
| RecoveryBound.SparseRoundTrip | crates/openqbw/src/bv_recovery.rs:266-470 | obfuscating a sparse page and recovering it gives the page back |
| RecoveryBound.AnyOnSparsePage | crates/openqbw/src/bv_recovery.rs:421-437 | on a sparse page without anchors the cascade is right exactly when the first byte is zero or occurs fewer than 204 times |
| RecoveryBound.AnyOnAnchoredSparsePage | crates/openqbw/src/bv_recovery.rs:421-437 | with an anchor it is right exactly when the true reading shows it and comes first in the search |
| RecoveryLimits.QuarterIsTooMany | crates/openqbw/src/bv_recovery.rs:225-246 | with exactly a quarter of non-zero bytes the step guess can fail, at every sector length |
| RecoveryLimits.CascadeMisreadsSevens | crates/openqbw/src/bv_recovery.rs:421-437 | a page the cascade misreads, however it is obfuscated, and the exhaustive search recovers |
| RecoveryLimits.SevensAreMisread | crates/openqbw/src/bv_recovery.rs:421-437 | that page exists in obfuscated form for every page number, `bv` and steps, and each of them is misread |
| Witnesses.ClimbsIffExplained | crates/openqbw/src/bv_recovery.rs:53-103 | the difference test of the scan holds exactly if some base and step explain every byte, and these are unique |
| Witnesses.WitnessAt | crates/openqbw/src/bv_recovery.rs:53-103 | an offset is reported exactly when it is explained, with the explaining step, base and `bv` |
| Witnesses.BvOfBaseInverts | crates/openqbw/src/bv_recovery.rs:53-103 | the reported `bv` is the one whose sector base the decoder would use |
| Witnesses.AffineKnownPlaintextWitnesses | crates/openqbw/src/bv_recovery.rs:53-103 | exactly the explained offsets inside one sector of the body, each once, in order |
| WitnessTheorems.WitnessesExactly | crates/openqbw/src/bv_recovery.rs:53-103 | reported are exactly the places inside a sector at which some base and step turn the plaintext into the raw bytes, in order |
| WitnessTheorems.WitnessMeaning | crates/openqbw/src/bv_recovery.rs:53-103 | a report names its sector, its place in it, and the only base, step and `bv` that do so, in plain integers |
| LegacyBalance.DiskRoundTrip | crates/openqbw/src/quickbooks_balance.rs:108-133 | a balance written to disk reads back |
| LegacyBalance.DiskBytesPreserved | crates/openqbw/src/quickbooks_balance.rs:108-133 | accepted disk bytes are written back unchanged |
| LegacyBalance.DiskLayout | crates/openqbw/src/quickbooks_balance.rs:108-133 | which six bytes are accepted, and that the last four spell the dollars, the most significant first |
| Drec.NewSchema | crates/openqbw/src/cindex_drec.rs:175-198 | accepted exactly when the last descriptor is a plain end marker and the others form a valid schema |
| Drec.ValidateDescriptor | crates/openqbw/src/cindex_drec.rs:421-448 | accepted exactly when class, length and default fit together |
| Drec.ParsedValueIsEncoded | crates/openqbw/src/cindex_drec.rs:450-539 | the bytes a value was parsed from are its encoding, and it matches its descriptor |
| Drec.EncodedValueIsParsed | crates/openqbw/src/cindex_drec.rs:450-539 | an encoded value parses back from any place it stands, unless its string bound overflows |
| Drec.ReadIsNumeral | crates/openqbw/src/cindex_drec.rs:33-60 | words are the numbers their bytes spell to base 256, in the order given |
| DrecMeaning.FieldMeaning | crates/openqbw/src/cindex_drec.rs:303-355 | the ordinal and the value of every parsed field are what its own bytes spell, class by class |
| DrecMeaning.TagLetters | crates/openqbw/src/cindex_drec.rs:86-127 | the tag letters of the classes |
| DrecMeaning.DeclaredLengths | crates/openqbw/src/cindex_drec.rs:421-448 | a schema may declare exactly the lengths that some value of the class takes up |
| DrecMeaning.CutRecordIsTruncated | crates/openqbw/src/cindex_drec.rs:303-355 | whatever is cut off the end of an accepted record, the rest is refused as truncated |
| DrecMeaning.TrailingExactly | crates/openqbw/src/cindex_drec.rs:303-355 | bytes are refused as trailing exactly when a proper prefix of them is an accepted record |
| DrecMeaning.OrdinalErrors | crates/openqbw/src/cindex_drec.rs:303-355 | what an ordinal that is the terminator, does not climb, or is beyond the schema leads to |
| DrecMeaning.TooLargeExactly | crates/openqbw/src/cindex_drec.rs:303-355 | only byte strings beyond 0x7530 bytes are refused as too large |
| DrecMeaning.StringErrors | crates/openqbw/src/cindex_drec.rs:450-496 | why a string is refused: its bound overflows, or its NUL is missing inside the bound or inside the record |
| DrecRecords.ParseDrec | crates/openqbw/src/cindex_drec.rs:303-355 | the cursor loop, with its duplicate check, computes the recursive grammar |
| DrecRecords.EncodeDrec | crates/openqbw/src/cindex_drec.rs:366-408 | succeeds exactly on records that agree with the schema and fit 0x7530 bytes, and writes flag, fields and terminator |
| DrecRecords.MeasureDrec | crates/openqbw/src/cindex_drec.rs:366-419 | the precomputed length is the length of what is written; else the first field that does not fit says why |
| DrecTheorems.ParseThenEncode | crates/openqbw/src/cindex_drec.rs:303-408 | every accepted byte string gives a record the encoder accepts and writes as exactly those bytes |
| DrecTheorems.EncodeThenParse | crates/openqbw/src/cindex_drec.rs:303-408 | every written record parses to the same flag, ordinals and values exactly when no string bound overflows; else the parser refuses it |
| DrecTheorems.ModestBoundsFit | crates/openqbw/src/cindex_drec.rs:450-496 | bounds that leave room for a whole record never overflow |
| DrecTheorems.HugeBoundIsNotParsed | crates/openqbw/src/cindex_drec.rs:450-496 | a written record the parser refuses |
| DrecTheorems.RangesTile | crates/openqbw/src/cindex_drec.rs:303-355 | the ranges tile the record from 1 to the terminator in rising ordinal order, none of them 0xFFFF |
| DrecTheorems.PrefixFree | crates/openqbw/src/cindex_drec.rs:303-355 | no accepted record is a proper prefix of another |
| DrecTheorems.WireInjective | crates/openqbw/src/cindex_drec.rs:366-408 | records written alike have the same flag, ordinals and values, also those whose string bounds the parser refuses |
| DrecTheorems.TagRoundTrip | crates/openqbw/src/cindex_drec.rs:86-127 | class tags read back, in both directions |
| DrecBuilding.NewRecord | crates/openqbw/src/cindex_drec.rs:253-279 | accepted exactly when ordinals are distinct, and then holds exactly the supplied values |
| DrecBuilding.SupplyOrderIsForgotten | crates/openqbw/src/cindex_drec.rs:253-279 | the order values are supplied in changes neither the record nor its bytes |
| DrecBuilding.MaterializeSchemaDefaults | crates/openqbw/src/cindex_drec.rs:281-299 | adds the default of every missing field that has one, and nothing else |
| DrecBuilding.DefaultedFields | crates/openqbw/src/cindex_drec.rs:281-299 | fields are kept, the others are defaults of ordinals that were missing, and no default is left out |
| DrecBuilding.DefaultsAreStable | crates/openqbw/src/cindex_drec.rs:281-299 | doing it again changes nothing |
| DrecBuilding.DefaultsEncode | crates/openqbw/src/cindex_drec.rs:281-299 | a filled record encodes exactly when it still fits the length cap |
| Hierarchy.WalkUp | crates/openqbw/src/accounting.rs:728-759 | the visited-set walk ends, telling endless chains, missing keys and roots apart |
| Hierarchy.ValidateAccountHierarchy | crates/openqbw/src/accounting.rs:728-759 | the verdict is the fate of the first account in key order that has a bad one |
| Hierarchy.AcceptedExactly | crates/openqbw/src/accounting.rs:728-759 | accepted exactly when every named parent exists and nobody is their own ancestor |
| Hierarchy.EndlessHasCycle | crates/openqbw/src/accounting.rs:728-759 | a chain that never ends comes back to an account it passed |
| Hierarchy.ClosedChartNeverPanics | crates/openqbw/src/accounting.rs:728-759 | where every named parent exists the check never panics and accepts exactly the acyclic charts |
| Hierarchy.PanicsExactly | crates/openqbw/src/accounting.rs:728-759 | the check panics exactly when the first chain in key order that reaches no root runs off above the account's own parent |
| Hierarchy.VerdictOfFirst | crates/openqbw/src/accounting.rs:728-759 | the verdict is about the first account whose chain reaches no root: itself as parent, no such parent, or an endless chain |
| Hierarchy.PanicExample | crates/openqbw/src/accounting.rs:744-750 | two accounts that make the check panic |
| HierarchyNames.Gather | crates/openqbw-cli/src/report_output.rs:840-860 | succeeds exactly when accounts with one identifier are equal |
| HierarchyNames.FullName | crates/openqbw-cli/src/report_output.rs:860-887 | the names from root to leaf joined by colons; a cycle error and a missing parent error exactly on such chains |
| HierarchyNames.RootName | crates/openqbw-cli/src/report_output.rs:860-887 | the full name of a root is its name |
| HierarchyNames.ChildName | crates/openqbw-cli/src/report_output.rs:860-887 | the full name of any other account is its parent's, a colon, and its name |
| HierarchyNames.FullNames | crates/openqbw-cli/src/report_output.rs:840-887 | succeeds exactly when every chain ends at a root, with one name an account |
| HierarchyNames.NearestNumber | crates/openqbw-cli/src/report_output.rs:936-991 | the number of the nearest numbered account on the way up, or the cycle or missing parent that keeps the search from stopping |
| HierarchyNames.OwnNumber | crates/openqbw-cli/src/report_output.rs:936-991 | a numbered account has its own number |
| HierarchyNames.ParentsNumber | crates/openqbw-cli/src/report_output.rs:936-991 | an unnumbered one has its parent's, and its search stops exactly when its parent's does |
| HierarchyNames.DisplayNames | crates/openqbw-cli/src/report_output.rs:936-991 | succeeds exactly when every search stops, and labels every account with its inherited number |
| HierarchyNames.AcceptedChartsHaveNames | crates/openqbw-cli/src/report_output.rs:840-991 | on every chart the hierarchy check accepts, both name passes succeed |
| LedgerSums.SumFitsI128 | crates/openqbw/src/accounting.rs:700-719 | sums of up to 2^64-1 postings fit `i128` |
| LedgerSums.ChartCountsEachEntryOnce | crates/openqbw/src/accounting.rs:607-639 | summing over the chart counts each entry once, under whatever account it is booked |
| LedgerSums.GroupsNetToZero | crates/openqbw/src/accounting.rs:700-719 | if every group nets to zero, so do all entries together |
| LedgerSums.TotalsBy | crates/openqbw/src/accounting.rs:528-605 | the balance map of a loop holds the sum of every key that occurs |
| LedgerSums.OrderIsUnique | crates/openqbw/src/accounting.rs:641-698 | ordered lists of the same entries are equal, because posting identifiers break every tie |
| Ledger.NewLedger | crates/openqbw/src/accounting.rs:452-505 | accepted exactly when account identifiers are distinct, the chart is closed and acyclic, and postings are distinct and known; else the duplicate, the verdict on the hierarchy, or the first bad posting says why |
| Ledger.CurrentPostingsAsOf | crates/openqbw/src/accounting.rs:641-698 | succeeds exactly on settled data and gives the current postings up to the date in report order |
| Ledger.AssertBalancedByTransaction | crates/openqbw/src/accounting.rs:700-719 | true exactly when every transaction nets to zero |
| Ledger.GeneralLedgerAsOf | crates/openqbw/src/accounting.rs:518-525 | succeeds exactly on settled, balanced data |
| LedgerTheorems.ReportHolds | crates/openqbw/src/accounting.rs:641-698 | the entries are the current postings up to the date, each once, with their accounts |
| LedgerTheorems.ReportIsOrdered | crates/openqbw/src/accounting.rs:683-696 | later entries have later dates, then greater accounts, then greater transactions, then greater postings |
| TrialBalances.FromSigned | crates/openqbw/src/accounting.rs:863-882 | every balance but the least has a row, on the side of its sign |
| TrialBalances.TrialBalanceFromBalances | crates/openqbw/src/accounting.rs:607-639 | overflow exactly when some balance cannot be shown; success exactly when also the sum is zero |
| TrialBalances.FullRows | crates/openqbw/src/accounting.rs:607-639 | with zero balances shown there is one row for every account, in their order, each with its balance on the side of its sign |
| TrialBalances.RowsWithoutZeros | crates/openqbw/src/accounting.rs:607-639 | without them the same rows but for those of zero balances |
| TrialBalances.BalancedTransactionsBalanceAccounts | crates/openqbw/src/accounting.rs:528-605 | balanced transactions make accounts balance, however entries are assigned to accounts |
| TrialBalances.TotalsAgree | crates/openqbw/src/accounting.rs:823-846 | total debits equal total credits |
| TrialBalances.TrialBalanceAsOf | crates/openqbw/src/accounting.rs:528-542 | never an unbalanced ledger; after the general ledger succeeds only overflow can fail |
| TrialBalances.AccrualTrialBalanceAsOf | crates/openqbw/src/accounting.rs:560-605 | the same for the fiscal-year form, under exactly the accepted policies, with the condition of every policy error |
| LedgerTheorems.FiscalRollForward | crates/openqbw/src/accounting.rs:560-605 | profit-and-loss accounts keep the year's postings, Retained Earnings gains all earlier ones, other accounts keep their balance |
| LedgerTheorems.RollForwardConserves | crates/openqbw/src/accounting.rs:560-605 | the roll-forward keeps the net of the chart |
| LedgerTheorems.PostingsOkPermuted | crates/openqbw/src/accounting.rs:452-505 | a posting stream is accepted in every order or in none |
| LedgerTheorems.ReportIgnoresPostingOrder | crates/openqbw/src/accounting.rs:518-525 | every order of the postings gives the same list of entries |
| ReportValidation.ValidateTrialBalance | crates/openqbw-cli/src/report_output.rs:674-711 | accepts exactly consistent, distinct and balanced rows; else the first bad row says why |
| ReportValidation.AcceptedTrialBalances | crates/openqbw-cli/src/report_output.rs:674-711 | accepted exactly if no account comes twice, every row is made from a balance that can be shown, and balances net to zero |
| ReportValidation.ValidateGeneralLedger | crates/openqbw-cli/src/report_output.rs:713-774 | accepts exactly distinct, current, dated and balanced entries; else the first bad entry says why |
| ReportValidation.AcceptedGeneralLedgers | crates/openqbw-cli/src/report_output.rs:713-774 | which entries are accepted, and that every transaction nets to zero |
| ReportValidation.ValidateTrialBalanceMatchesGeneralLedger | crates/openqbw-cli/src/report_output.rs:776-808 | accepts exactly when stated and summed balances agree for every account |
| ReportValidation.OwnGeneralLedgerAccepted | crates/openqbw-cli/src/report_output.rs:713-774 | every general ledger of a ledger is accepted |
| ReportValidation.OwnTrialBalanceAccepted | crates/openqbw-cli/src/report_output.rs:674-711 | every trial balance of a ledger is accepted, in both forms |
| ReportValidation.OwnReportsAgree | crates/openqbw-cli/src/report_output.rs:776-808 | the plain trial balance and the general ledger of one date agree |
| ReportValidation.FiscalReportsAgreeExactly | crates/openqbw-cli/src/report_output.rs:776-808 | in fiscal-year form they agree exactly when the profit-and-loss postings before the fiscal year sum to zero for every account |
| ReportValidation.FiscalReportsMayDisagree | crates/openqbw-cli/src/report_output.rs:646-672 | a ledger whose two reports, in fiscal-year form, are rejected together |
| Sha256.ZeroCountIsLeast | crates/openqbw-cli/src/sdk_oracle_manifest.rs:92-105 | the padding loop adds the fewest zeros that fill whole blocks |
| Sha256.Sha256OneShot | crates/openqbw-cli/src/sdk_oracle_manifest.rs:92-230 | the one-shot hash folds the compression over the message padded as in section 5.1.1 of FIPS 180-4 |
| Sha256.Be64IsNumeral | crates/openqbw-cli/src/batch_extract.rs:553-570 | the length field spells the length, the most significant byte first |
| Sha256.PaddedLayout | crates/openqbw-cli/src/sdk_oracle_manifest.rs:170-180 | the padded message byte by byte, of the least length possible |
| Sha256.ShortDigest | crates/openqbw-cli/src/sdk_oracle_manifest.rs:170-230 | a message of up to 55 bytes takes one compression |
| Sha256.LengthWraps | crates/openqbw-cli/src/batch_extract.rs:530-556 | the wrapping byte counter gives the same 64-bit bit length as the message length |
| Sha256.StreamingSha256.constructor | crates/openqbw-cli/src/batch_extract.rs:511-522 | nothing absorbed yet |
| Sha256.StreamingSha256.Update | crates/openqbw-cli/src/batch_extract.rs:530-551 | the message absorbed grows by the input, whatever was buffered |
| Sha256.StreamingSha256.Finish | crates/openqbw-cli/src/batch_extract.rs:553-570 | the digest of the one-shot hash for the message absorbed |
| Sha256.HashChunks | crates/openqbw-cli/src/batch_extract.rs:511-570 | every split of a message into chunks gives the one-shot digest |
| Sha256.ReadAndHashSnapshot | crates/openqbw-cli/src/batch_extract.rs:371-402 | accepts exactly as many bytes as expected, and returns them with their digest |
| Sha256.DeliveredPieces | crates/openqbw-cli/src/batch_extract.rs:371-402 | what a reader delivers is every piece in front of its first empty one |
| WorkerPool.WorkerLimit | crates/openqbw-cli/src/batch_extract.rs:124-141 | refused without inputs or outside one to eight workers; else the lesser of the requested number and the inputs |
| WorkerPool.RunKeepsPartition | crates/openqbw-cli/src/batch_extract.rs:143-192 | in every reachable state each input index is pending, in one worker's hands, in the channel or delivered, exactly once |
| WorkerPool.InputsAreExclusive | crates/openqbw-cli/src/batch_extract.rs:143-192 | no two workers hold the same input, and none that was already sent |
| WorkerPool.SlotIsEmptyOnReceive | crates/openqbw-cli/src/batch_extract.rs:201-257 | the next delivery's slot is still empty |
| WorkerPool.RunsAreBounded | crates/openqbw-cli/src/batch_extract.rs:201-257 | each step uses up one unit of a fixed amount of work, so every run ends |
| WorkerPool.SomeStepIsEnabled | crates/openqbw-cli/src/batch_extract.rs:201-257 | an unfinished run can always go on |
| WorkerPool.FinishedRunDelivers | crates/openqbw-cli/src/batch_extract.rs:201-257 | under every interleaving and worker count every slot holds the processor's result for its input |
| WorkerPool.OrderDeliveries | crates/openqbw-cli/src/batch_extract.rs:201-257 | the collecting loop fills the slots from the deliveries |
| CsvText.CsvRow | crates/openqbw-cli/src/report_output.rs:1264-1283 | appends the fields, quoted where needed, with commas between and an LF behind |
| CsvErrors.PlainFieldsAreBare | crates/openqbw-cli/src/report_output.rs:1264-1283 | a field is written as it is exactly if it has no comma, quote or line end |
| CsvText.ParseCsvRecords | crates/openqbw-cli/src/trial_balance_reconciliation.rs:559-631 | the loop computes the native reader's machine |
| CsvText.ParseCsv | crates/openqbw-cli/src/batch_trial_balance.rs:278-346 | the loop computes the manifest reader's machine |
| CsvTheorems.WrittenRowsReadBack | crates/openqbw-cli/src/trial_balance_reconciliation.rs:559-631 | written rows read back as the same fields exactly when none is empty; an empty one comes back as one empty field |
| CsvTheorems.WrittenRowsReadAlike | crates/openqbw-cli/src/batch_trial_balance.rs:278-346 | the manifest reader reads written rows back too |
| CsvTheorems.ReadersAgree | crates/openqbw-cli/src/batch_trial_balance.rs:278-346 | with harmless CRs only, both readers give the same rows or the same rejection |
| CsvTheorems.ReadersAgreeExactly | crates/openqbw-cli/src/batch_trial_balance.rs:278-346 | unless a quote stands directly behind an unquoted CR, they agree exactly when the native reader rejects the text or its CRs are harmless; with such a quote the native reader finds a bare quote, and they agree exactly when the manifest reader finds one in the text from that quote on |
| CsvTheorems.CrThenQuoteAccepted | crates/openqbw-cli/src/batch_trial_balance.rs:278-346 | a quoted field behind a CR that only the native reader rejects |
| CsvTheorems.CrThenQuoteRejected | crates/openqbw-cli/src/batch_trial_balance.rs:278-346 | one with a further bare quote, which both reject |
| CsvTheorems.RejectAlike | crates/openqbw-cli/src/batch_trial_balance.rs:278-346 | without such a quote one reader rejects a text exactly when the other does, with the same error |
| CsvTheorems.QuotedCrAtEndIsLost | crates/openqbw-cli/src/trial_balance_reconciliation.rs:621-629 | a quoted CR at the end of the text that one reader drops |
| CsvErrors.LineEndsBehindQuote | crates/openqbw-cli/src/trial_balance_reconciliation.rs:559-631 | LF, CR LF and CR behind a closing quote end the line alike, for both readers |
| CsvErrors.UnclosedFieldIsRefused | crates/openqbw-cli/src/trial_balance_reconciliation.rs:559-631 | a quoted field without its closing quote is refused by both |
| CsvErrors.TextBehindQuoteIsRefused | crates/openqbw-cli/src/trial_balance_reconciliation.rs:559-631 | so is one with anything but a comma or line end behind it |
| CsvErrors.BareQuoteIsRefused | crates/openqbw-cli/src/batch_trial_balance.rs:278-346 | so is a quote inside an unquoted field |
| MoneyShapes.FormatThenParse | crates/openqbw-cli/src/report_output.rs:1257-1262 | printed cents read back for every 64-bit amount but the least, which overflows |
| MoneyShapes.ShownAmountsRead | crates/openqbw-cli/src/trial_balance_reconciliation.rs:470-518 | with any leading zeros and up to two decimals, white space around and inside, currency mark, grouping, sign and parentheses, an amount reads as its cents, and overflows exactly beyond 64 bits |
| MoneyShapes.OnlyShownAmountsRead | crates/openqbw-cli/src/trial_balance_reconciliation.rs:470-518 | nothing else is an amount, but for blank texts and a lone minus, which read as zero |
| MoneyShapes.WhiteSpace | crates/openqbw-cli/src/trial_balance_reconciliation.rs:470-475 | the white space that is trimmed |
| MoneyShapes.ReadAmountsAreStable | crates/openqbw-cli/src/trial_balance_reconciliation.rs:470-518 | whatever text was read, printing and reading the result changes nothing |
| Matching.CancelCommon | crates/openqbw-cli/src/general_ledger_reconciliation.rs:273-285 | cancelling key by key, in any order, leaves the two multiset differences and counts the intersection |
| Matching.ProjectionOverlap | crates/openqbw-cli/src/general_ledger_reconciliation.rs:760-776 | the size of the intersection of the projections |
| Matching.ReconcileGeneralLedgerPostings | crates/openqbw-cli/src/general_ledger_reconciliation.rs:246-331 | all counts of the report, with types compared only if every row has one |
| PostingTypes.SameKeys | crates/openqbw-cli/src/general_ledger_reconciliation.rs:246-272 | postings match exactly if date, account and amount are the same, and the types where these take part |
| PostingTypes.TypesTakePart | crates/openqbw-cli/src/general_ledger_reconciliation.rs:246-266 | types take part exactly if neither side is empty and every posting of both has one that is not blank |
| PostingTypes.SameTypes | crates/openqbw-cli/src/general_ledger_reconciliation.rs:778-790 | two types are the same exactly if they are spelled alike or stand for the same kind of document |
| PostingTypes.WordsAreKept | crates/openqbw-cli/src/general_ledger_reconciliation.rs:778-783 | a spelling keeps the words and one blank between them |
| PostingTypes.SmallLetters | crates/openqbw-cli/src/general_ledger_reconciliation.rs:778-783 | and turns capitals into small letters |
| Matching.ReconciliationLaws | crates/openqbw-cli/src/general_ledger_reconciliation.rs:139-331 | matches and remainders add up on both sides, the report passes exactly on equal key multisets, full matches are at most date and amount matches, and those at most the shorter side |
| Matching.TypesOnlyLower | crates/openqbw-cli/src/general_ledger_reconciliation.rs:246-285 | comparing types can only lower the matches |
| Matching.RowOrderIsIrrelevant | crates/openqbw-cli/src/general_ledger_reconciliation.rs:246-331 | the order of rows on either side changes nothing |
| TrialBalanceMatching.FromBalances | crates/openqbw-cli/src/trial_balance_reconciliation.rs:29-63 | accepted exactly when trimmed names are present and distinct and both totals fit; then balances and totals are those of the rows; else the first row that breaks this says why |
| TrialBalanceMatching.ReconcileTrialBalances | crates/openqbw-cli/src/trial_balance_reconciliation.rs:129-188 | missing, extra and mismatched accounts with their variances in the order of their names, and the greatest variance |
| TrialBalanceMatching.VariancesAreDifferences | crates/openqbw-cli/src/trial_balance_reconciliation.rs:129-188 | each list holds exactly the accounts only one side has, or whose balances differ, each with actual less reference; none exceeds the reported greatest, which is the size of one of them |
| TrialBalanceMatching.VariancesOfTotals | crates/openqbw-cli/src/trial_balance_reconciliation.rs:129-188 | the variances of the totals are those of the cents of all rows, by sign and altogether |
| TrialBalanceMatching.VariancesAscend | crates/openqbw-cli/src/trial_balance_reconciliation.rs:129-188 | every list ascends by account name |
| NameOrder.OrderedAscends | crates/openqbw-cli/src/trial_balance_reconciliation.rs:138-159 | a map keyed by names is walked through in strictly ascending order |
| NameOrder.BelowExactly | crates/openqbw-cli/src/trial_balance_reconciliation.rs:138-159 | names are ordered by the first character in which they differ, a beginning before the whole |
| TrialBalanceMatching.TotalsFollowBalances | crates/openqbw-cli/src/trial_balance_reconciliation.rs:29-63 | equal balances have equal totals, however the rows were ordered |
| TrialBalanceMatching.PassesExactly | crates/openqbw-cli/src/trial_balance_reconciliation.rs:84-188 | a comparison passes exactly when both have the same balances and the reference balances |
| ControlNoise.SubtractStreaming | crates/openqbw-cli/src/account_delta_probe.rs:426-469 | the page loop keeps the changed pages the control does not account for, in page order |
| ControlNoise.SubtractBatch | crates/openqbw-cli/src/snapshot_compare.rs:108-130 | removes, for every pair of digests, as many observations as the control has |
| ControlNoise.CompareSnapshots | crates/openqbw-cli/src/snapshot_compare.rs:70-150 | a comparison reports length and digest of both snapshots, the digest of the control manifest and the raw counters, and as many pages with the same digests as the page loop would keep, with their types where equal digests have equal types |
| ControlNoise.SnapshotByte | crates/openqbw-cli/src/snapshot_compare.rs:70-81 | the bytes hashed are those of the pages, one page after the other |
| ControlNoise.ChangeIsCounted | crates/openqbw-cli/src/snapshot_compare.rs:82-98 | a changed page counts under its type bytes and its digests, before and after |
| ControlNoise.ChangedMembers | crates/openqbw-cli/src/snapshot_compare.rs:75-84 | a page counts as changed exactly if it differs |
| ControlNoise.CrcChangesAreThose | crates/openqbw-cli/src/snapshot_compare.rs:85-88 | the checksum counter counts the changed pages whose last four bytes differ |
| ControlNoise.StreamingRefinesBatch | crates/openqbw-cli/src/account_delta_probe.rs:426-469 | for every page order the page loop leaves the same pairs equally often and drops equally many pages as the batch form |
| ControlNoise.KeptPagesOrderFree | crates/openqbw-cli/src/account_delta_probe.rs:426-469 | where digests tell the pages apart, even the pages kept do not depend on the page order |
| ControlNoise.RemainingTypes | crates/openqbw-cli/src/snapshot_compare.rs:131-144 | every remaining transition is counted once under its remembered types, and none is without |
| Manifest.WriteHashHistogram | crates/openqbw-cli/src/snapshot_compare.rs:282-295 | appends the key and the transitions as a JSON array |
| ManifestErrors.IdentitySpelled | crates/openqbw-cli/src/snapshot_compare.rs:254-260 | how a snapshot is written: its length and its digest under their names |
| ManifestErrors.TypesSpelled | crates/openqbw-cli/src/snapshot_compare.rs:262-276 | how a type transition is written: both type bytes and the count under their names |
| ManifestErrors.TypesJoined | crates/openqbw-cli/src/snapshot_compare.rs:262-276 | type transitions are written one behind the other with commas between |
| ManifestErrors.WordsJoined | crates/openqbw-cli/src/snapshot_compare.rs:254-280 | names of several words are joined with underscores |
| Manifest.ParseControlNoiseManifest | crates/openqbw-cli/src/snapshot_compare.rs:319-355 | the loop adds up the pieces of the transition array, or gives the first error |
| ManifestErrors.KeyErrors | crates/openqbw-cli/src/snapshot_compare.rs:319-330 | refused for want of its key exactly if the key stands nowhere |
| ManifestErrors.BracketErrors | crates/openqbw-cli/src/snapshot_compare.rs:319-340 | refused for its brackets exactly if none opens right behind the first key, or none closes |
| ManifestErrors.StringErrors | crates/openqbw-cli/src/snapshot_compare.rs:357-369 | a member is refused exactly for want of its key or of a quote behind it |
| ManifestErrors.StringIsRead | crates/openqbw-cli/src/snapshot_compare.rs:357-369 | else it is the text up to the next quote |
| ManifestErrors.CountErrors | crates/openqbw-cli/src/snapshot_compare.rs:371-384 | a count is refused for want of its key exactly if the key stands nowhere |
| ManifestErrors.CountIsRead | crates/openqbw-cli/src/snapshot_compare.rs:371-384 | a count is the run of digits behind its key, if it fits 64 bits |
| ManifestErrors.PiecesAreChecked | crates/openqbw-cli/src/snapshot_compare.rs:319-355 | only pairs of 64 hexadecimal digits and counts above zero get through |
| ManifestErrors.BracesAreTrimmed | crates/openqbw-cli/src/snapshot_compare.rs:340-345 | braces come off both ends of a piece, and nothing else |
| ManifestTheorems.ManifestRoundTrip | crates/openqbw-cli/src/snapshot_compare.rs:200-355 | behind every header of a comparison, and whatever follows, the manifest reads as the sum of the transitions written, or is refused for the first bad one |
| ManifestTheorems.RawTransitionsReadBack | crates/openqbw-cli/src/snapshot_compare.rs:200-355 | a counter map written out entry by entry reads back as itself |
| ManifestTheorems.OwnControlLeavesNothing | crates/openqbw-cli/src/snapshot_compare.rs:108-130 | a comparison used as the control of the same snapshots leaves no page |
| Nonoverlap.CountNonoverlapping | crates/openqbw-cli/src/account_delta_probe.rs:641-655 | the greedy count is the greatest number of places at which the needle stands without overlapping itself, and zero for an empty needle |

## Left out

- The SHA-256 round function and its constants: the compression is a parameter of the hash model, as are the initial
  state and hexadecimal rendering.
- RecoverBvAny: models pages of 4096 bytes only. On every other size the program panics: on an empty page at its first
  byte, on any other at the length assertion of the decoder.
- CompareSnapshots: hashes both snapshots in passes of their own instead of inside the page loop; takes whole pages, so
  the refusals of unequal, unaligned or changing files are not modelled; takes the bytes of the control manifest and
  the transitions read from them, which `Manifest.ParseControlNoiseManifest` models, as given; counter maps are
  multisets, so the order of their keys is not modelled.
- CountNonoverlapping: the literal search around it (clusters, collision checks) is not modelled.
- ReadAndHashSnapshot: reads are a list of pieces; files, metadata and modification times are not modelled.
- ReconcileGeneralLedgerPostings: the lists of compared field names are one flag.
- ParseDrec: errors carry no offsets or ordinals; the cursor of the value parsers is passed along instead of updated in place.
- CurrentPostingsAsOf: sorting is modelled as stable insertion; which of several blocking postings an error names is not
  stated, nor are memo, number and transaction type of postings.
- NewLedger: identifiers are opaque ordered keys, and text fields that no check reads are dropped.
- Counter maps of the reconciliation are multisets: keys left with a count of zero are not told apart from absent keys.
- The accounts-payable control-section resolver and the native section resolver: account name heuristics over report text.
- CSV report layouts, header search and date parsing; Windows-1252 decoding. Texts are sequences of characters.
- The rest of the JSON documents, SQLite output, staged publication, command line and language bindings: input and output.
- Page stores, slotted pages, the table-level decoders and research probes: other properties than those above.
