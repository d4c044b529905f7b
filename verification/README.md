# Relational SDK: a verified model

The Relational SDK runs data scripts inside an enclave: an owner registers a pool, uploads CSV
datasets against burned append tokens (DRTs), grants analysts the right to query, and a
hash-pinned WebAssembly script is executed over the concatenated dataset. This project models the
parts of that system where correctness rests on several functions at once, and proves what they
promise, or exactly when they keep the promise.

| component | files | what is proved |
|---|---|---|
| the `mean` script | `MeanScript`, `MeanScanner`, `Decimal`, `Printer`, `JsonText`, `LinearMemory` | the one-pass scanner computes the mean of the numbers in the column, counted row by row; numbers are read and printed within stated errors; JSON round trips; the whole script from arguments to reported numbers; allocator safety over every run |
| dataset upload | `FieldRules`, `CsvValidator`, `RowAccounting`, `Issuance`, `IssuanceLock` | strict validity cell by cell, and the capped validator against an uncapped one; stored files, totals and burns from the calls alone; the issuance lock under every interleaving, and that it is always given back |
| embedded store | `KeyOrder`, `AuditIndex`, `GrantIndex`, `WalletTxIndex`, `Nonces` | secondary indexes against the records, in every run; paging; replay protection |
| indexer and wallets | `Poller`, `Wallets` | exactly which transactions are recorded; the wallet life cycle |
| script execution | `AtomicPublish`, `ScriptCache` | no torn file under concurrent writers, and whose file is seen; caches that cannot change what is executed and that answer once filled |

`Basics` holds shared sequence functions. Source that updates state in place is a class whose
methods are tied to step functions on values (`View()`); the invariants and whole-run theorems are
lemmas about those functions.

Modelling conventions:

- Bytes are characters below 256, text is a sequence of Unicode characters; comparing code points
  is the byte order of UTF-8, so one order (`KeyOrder.Less`) serves text and byte keys.
- `f64` is a real number. The scanner is proved for arbitrary addition and division functions, so
  rounding of the sum and of the mean does not matter to it; the cells it adds are read over exact
  arithmetic, as are all reader and printer errors, with the 64-bit wrap, the 18 digit cut and the
  32-bit saturation kept.
- Address arithmetic wraps at 2^32 and timestamps are 64-bit, as in the code. The alignment mask is
  written as rounding down to a multiple, which is the same for the powers of two a layout allows.
- Clocks, the chain, the network, storage failures and growth of linear memory are inputs of each
  step. Hashing, compiling and loading WebAssembly, and cursor authentication are given functions
  or flags.
- A database table is a map or a set of keys; a range scan is its sorted key sequence.

Where the code does less than its documentation says, the model follows the code and states the
exact condition:

- `list_by_wallet` decodes each raw key as UTF-8, and keys with present-day times never decode, so
  the listing is always empty (`WalletTxIndex.ListingIsAlwaysEmpty`, `PagingIsCompleteExactly`).
- The storage layer's atomic write uses one fixed temporary name per path; atomicity under
  concurrent writers needs distinct names (`AtomicPublish.TornExactlyWhenShared`).
- Reverse-chronological keys are newest first only among times on one side of 1970
  (`KeyOrder.InversionReverses`, `AuditIndex.ListingIsExact`).
- One wallet per user: a refused creation has already stored the wallet, and a repeated delete
  frees the slot of another wallet (`Wallets.UniquenessSurvivesExactly`).
- The public arena of the script is 16 MiB, while the host stages inputs up to 600 MiB
  (`LinearMemory.ArenasDisjointExactly`, `StagingLimit`, `HostInputLimit`).
- Revocation updates pool metadata without the pool lock and can undo an issuance's update
  (`IssuanceLock.AccountedExactlyWhenNotOvertaken`, `RevocationLosesUpdate`).
- Composite grant keys are not escaped, so an analyst identifier and a DRT name with separators can
  make two grants share a key; the index answers as the records do for exactly those sets of grants
  in which no two share one key and not the other (`GrantIndex.AgreementExactly`).

## Model

| member | source | states |
|---|---|---|
| `MeanScanner.ComputeMean` | drt-examples/mean/src/lib.rs:314-380 | for every CSV, column, addition and division, the single pass returns what splitting, trimming, reading and left-folding the column gives, errors included; `MeanMeaning` and `ExactMean` say what that is |
| `MeanScanner.MeanMeaning` | drt-examples/mean/src/lib.rs:314-380 | count is the number of rows whose cell in the column reads as a number, skipped the number of the others, mean the numbers accumulated in row order divided by the count; each error in exactly its case |
| `MeanScanner.ExactMean` | drt-examples/mean/src/lib.rs:379 | with exact arithmetic, mean times count is the sum of the numbers in the column |
| `MeanScanner.LinesAreCut` | drt-examples/mean/src/lib.rs:334-393 | the first line less one trailing carriage return is the header and what follows its newline the body, empty without one, and rows come line by line without empty ones |
| `MeanScanner.CleanRowMeaning` | drt-examples/mean/src/lib.rs:336-348 | a row loses its leading carriage returns and at most one trailing one, and nothing else |
| `Basics.JoinOfSplit` | drt-examples/mean/src/lib.rs:395-433 | joining the parts of a split gives the text back |
| `Basics.SplitOfJoin` | drt-examples/mean/src/lib.rs:395-433 | parts without separator are recovered from their join, so a split is unique |
| `MeanScanner.ScanBody` | drt-examples/mean/src/lib.rs:329-373 | the byte loop over the body tallies exactly the non-empty cleaned rows in order |
| `MeanScanner.ReadRow` | drt-examples/mean/src/lib.rs:341-356 | one row is cut off the body and the remaining rows are those after it |
| `MeanScanner.TallyIsFold` | drt-examples/mean/src/lib.rs:357-372 | row by row counting is the left fold of the column's numbers, and every row is counted or skipped |
| `MeanScanner.SplitFirstLine` | drt-examples/mean/src/lib.rs:382-393 | header without its carriage return, and everything after the first newline |
| `MeanScanner.HeaderColumnIndex` | drt-examples/mean/src/lib.rs:395-412 | the first comma-separated header cell that equals the column after trimming |
| `MeanScanner.FieldAt` | drt-examples/mean/src/lib.rs:414-433 | the n-th comma-separated cell, if there is one |
| `MeanScanner.TrimAscii` | drt-examples/mean/src/lib.rs:435-445 | the two index loops compute the recursive trim |
| `MeanScanner.TrimMeaning` | drt-examples/mean/src/lib.rs:435-445 | trimming removes blanks at both ends and nothing else |
| `Decimal.ParseF64Bytes` | drt-examples/mean/src/lib.rs:452-546 | the reader returns the value computed from the unique cut of the text, or nothing when there is none |
| `Decimal.AcceptsExactlyTheGrammar` | drt-examples/mean/src/lib.rs:447-546 | a text is accepted if and only if it is in the decimal grammar |
| `Decimal.ScanComplete` | drt-examples/mean/src/lib.rs:452-546 | the grammar is unambiguous: every well-formed numeral is found again from its text |
| `Decimal.ParseAccuracy` | drt-examples/mean/src/lib.rs:452-546 | for every numeral, sign kept; error below 10^(saturated exponent - 18) against the value at that exponent if and only if the integer part is below 2^64; with at most 18 fraction digits exact if and only if the exponent fits 32 bits or the number is zero |
| `Decimal.MantissaError` | drt-examples/mean/src/lib.rs:467-496 | wrap-around and digit cut cost less than 10^-18 if and only if the integer part fits 64 bits |
| `Decimal.FractionCut` | drt-examples/mean/src/lib.rs:484-495 | cutting a fraction after k digits loses less than one unit of the k-th digit |
| `Decimal.ReadWhole` | drt-examples/mean/src/lib.rs:467-478 | the wrapping loop reads the longest digit run, modulo 2^64 |
| `Decimal.ReadFraction` | drt-examples/mean/src/lib.rs:480-496 | the longest digit run, of which the first 18 enter the value without wrapping |
| `Decimal.ReadExponent` | drt-examples/mean/src/lib.rs:502-533 | succeeds if and only if the rest is an exponent, saturated to 32 bits |
| `Decimal.Combine` | drt-examples/mean/src/lib.rs:535-545 | the fraction, exponent and sign steps give the signed, scaled sum |
| `Decimal.ComputePow10` | drt-examples/mean/src/lib.rs:548-578 | table lookup followed by repeated multiplication is the power of ten for every exponent |
| `Decimal.TableIsPow10` | drt-examples/mean/src/lib.rs:549-556 | every table entry, and its reciprocal, is the power of ten of its index |
| `Printer.PushU64` | drt-examples/mean/src/lib.rs:614-630 | the backward fill of a 20 byte buffer appends the decimal notation of any 64-bit number |
| `Printer.DecimalTextIsUnique` | drt-examples/mean/src/lib.rs:614-630 | decimal notation is the only digit string without superfluous zeros for its value |
| `Printer.PushF64` | drt-examples/mean/src/lib.rs:632-654 | sign, saturating integer part and six truncated digits, `null` when not finite |
| `Printer.NotFiniteIsNoNumber` | drt-examples/mean/src/lib.rs:632-636 | a value that is not finite prints as null, which the number reader refuses |
| `Printer.FractionTextValue` | drt-examples/mean/src/lib.rs:644-653 | the printed digits of a fraction below 1 are those of its truncation |
| `Printer.PrintThenParse` | drt-examples/mean/src/lib.rs:632-654 | every printed number reads back with its sign, and within 10^-6 below its magnitude if and only if that is below 2^64 |
| `JsonText.ExtractStringField` | drt-examples/mean/src/lib.rs:268-297 | the reader finds the first key occurrence and decodes the string after it, refusing unknown escapes and missing quotes |
| `JsonText.ReadQuoted` | drt-examples/mean/src/lib.rs:276-296 | the character loop decodes the string as its recursive definition does |
| `JsonText.ExtractMeaning` | drt-examples/mean/src/lib.rs:273-276 | what is read starts at the quote after the first occurrence of the key and the whitespace behind it; without a quote there nothing is read |
| `JsonText.MissingKey` | drt-examples/mean/src/lib.rs:273 | without an occurrence of the key nothing is read |
| `JsonText.FindIsFirst` | drt-examples/mean/src/lib.rs:273 | the key is found at its first occurrence, if and only if it occurs |
| `JsonText.SpelledIsRead` | drt-examples/mean/src/lib.rs:276-296 | every string spelled with raw characters and the six known escapes is read as what it means |
| `JsonText.ReadWasSpelled` | drt-examples/mean/src/lib.rs:276-296 | whatever is read was spelled that way up to a closing quote |
| `JsonText.FormatError` | drt-examples/mean/src/lib.rs:598-612 | the error object with quotes, backslashes and newlines escaped, other control characters dropped |
| `JsonText.FormatResult` | drt-examples/mean/src/lib.rs:584-596 | the result object with its four fields in order |
| `JsonText.ErrorRoundTrip` | drt-examples/mean/src/lib.rs:598-612 | reading an error report back gives the message without its control characters, for every message |
| `JsonText.ColumnRoundTrip` | drt-examples/mean/src/lib.rs:584-596 | the unescaped column name reads back if and only if it has no quote and no backslash |
| `JsonText.NumbersRoundTrip` | drt-examples/mean/src/lib.rs:584-596 | a numeric field whose key the column name does not contain is found, between its colon and the next comma or brace, as it was printed |
| `JsonText.NumbersReadBackExactly` | drt-examples/mean/src/lib.rs:584-596 | for each numeric key, the field reads back for all statistics if and only if the opening quote and column name do not contain the quoted key and its colon |
| `JsonText.QuotelessHidesNothing` | drt-examples/mean/src/lib.rs:584-596 | a column name without quotes hides no field |
| `MeanScript.RunScript` | drt-examples/mean/src/lib.rs:251-259 | argument decoding, column lookup, mean and report composed, with the exit code and body of each outcome |
| `MeanScript.SuccessReadsBack` | drt-examples/mean/src/lib.rs:197-220 | on exit code 0 the body gives back the column name if and only if it is plain and, for a name without quotes, the counts and the mean of the plain definition to within 10^-6 |
| `MeanScript.FailureReadsBack` | drt-examples/mean/src/lib.rs:197-220 | the exit code tells the failing step, and the message reads back from the body without control characters |
| `MeanScript.FailureTexts` | drt-examples/mean/src/lib.rs:251-328 | the message of each failure: arguments that are not UTF-8 or lack the column, an empty CSV, an unknown column, no numbers |
| `MeanScript.RequestIsUnderstood` | drt-examples/mean/src/lib.rs:251-256 | arguments written with the script's own escaping ask for the column they name, less control characters |
| `MeanScript.CountsFit` | drt-examples/mean/src/lib.rs:329-373 | the row counters of a CSV in memory stay below 2^64 |
| `LinearMemory.AllocKeepsSafe` | drt-examples/mean/src/lib.rs:86-106 | an allocation in either arena keeps every block aligned, inside memory, and disjoint from its arena's others |
| `LinearMemory.SafeExactlyWithoutWrap` | drt-examples/mean/src/lib.rs:86-106 | a successful allocation, of any size and alignment, keeps that invariant if and only if its address arithmetic stays below 2^32 |
| `LinearMemory.EveryRunIsSafe` | drt-examples/mean/src/lib.rs:68-160 | the invariant holds after every interleaving of the two allocators, growth refused or granted |
| `LinearMemory.BlocksAreInside` | drt-examples/mean/src/lib.rs:68-160 | in every such run each block is aligned and inside the memory |
| `LinearMemory.BlocksAreDisjoint` | drt-examples/mean/src/lib.rs:68-160 | blocks of one arena never overlap, nor do blocks of both while the public one ends below the global one |
| `LinearMemory.RefusedRequestIsInvisible` | drt-examples/mean/src/lib.rs:97-103 | an allocation refused for lack of memory returns 0, and every later state is that of the run without it |
| `LinearMemory.ArenasDisjointExactly` | drt-examples/mean/src/lib.rs:114-157 | after every interleaving of both allocators, a global block at a multiple of 8 overlaps no public block if and only if the public arena ends at or before it |
| `LinearMemory.EveryRunIsCovered` | drt-examples/mean/src/lib.rs:86-106 | in every run the public blocks leave no multiple of 8 uncovered between the heap start and the public offset |
| `LinearMemory.StagingLimit` | src/drt/runtime.rs:400-414 | whatever inputs are staged, the first Rust allocation is clear of all of them if and only if they end at or before the aligned start of the global arena |
| `LinearMemory.HostInputLimit` | src/drt/runtime.rs:400-414 | CSV, arguments and result cells are clear of the first Rust allocation if and only if, rounded up in order, they end within 16 MiB |
| `LinearMemory.LargeInputOverlaps` | src/drt/runtime.rs:88 | admissible inputs that with the result cells exceed 16 MiB overlap the first Rust allocation |
| `LinearMemory.Allocators.PublicAlloc` | drt-examples/mean/src/lib.rs:175-180 | the exported `alloc`: refuses negative sizes, otherwise the allocation step of the public arena |
| `LinearMemory.Allocators.GlobalAlloc` | drt-examples/mean/src/lib.rs:134-157 | the global allocator is the same allocation step in its own arena |
| `LinearMemory.Allocators.Reserve` | drt-examples/mean/src/lib.rs:96-103 | success makes every address below the requested end exist with the fewest pages, refusal changes nothing, and below 4 GiB it succeeds if and only if the memory suffices or growth is granted and stays within 4 GiB |
| `FieldRules.DecimalAcceptedExactly` | src/data_validation.rs:281-315 | a decimal passes if and only if it is a numeral without exponent within scale and precision |
| `FieldRules.FieldAcceptedExactly` | src/data_validation.rs:253-279 | a trimmed cell has no defect if and only if it is empty and nullable, or short enough, a 64-bit integer, a decimal within scale and precision, a date or a flag, as its field asks |
| `FieldRules.IntegerAcceptedExactly` | src/data_validation.rs:271-274 | accepted integers are exactly the signed digit strings whose value fits 64 bits |
| `FieldRules.FlagAcceptedExactly` | src/data_validation.rs:340-348 | accepted flags are exactly the eight words in any case |
| `FieldRules.DecimalTextExactly` | src/data_validation.rs:281-315 | accepted decimals are exactly the texts within scale and precision |
| `FieldRules.DefectMeaning` | src/data_validation.rs:253-315 | which defect a cell has that does not meet its field; for a decimal, scientific notation exactly when an exponent letter occurs, otherwise one of the other four |
| `FieldRules.IntegerReadsExactly` | src/data_validation.rs:271-274 | every accepted integer is read by the script as that integer |
| `FieldRules.DecimalReadsExactlyWhenShort` | src/data_validation.rs:281-315 | with scale up to 18 an accepted decimal is read exactly if and only if its integer part fits 64 bits |
| `FieldRules.DecimalReadsExactly` | src/data_validation.rs:281-315 | with precision up to 19 and scale up to 18 every accepted decimal is read exactly |
| `FieldRules.DecimalMagnitude` | src/data_validation.rs:281-315 | an accepted decimal is a whole number of units of its last place, below 10^precision |
| `CsvValidator.ValidateCsv` | src/data_validation.rs:107-251 | reports exactly the first 100 errors of an uncapped checker, as many as it has up to 100, valid if and only if it has none; the row count is that of the records read before the cap; `ErrorsExactly` and `StrictMeaning` say which errors those are |
| `CsvValidator.ValidReportsAllRows` | src/data_validation.rs:107-251 | a file without errors has all its readable records counted, in every mode |
| `CsvValidator.CheckRows` | src/data_validation.rs:198-244 | the capped row loop is the uncapped list of row errors cut at 100, and counts the readable records met before the cap |
| `CsvValidator.CheckRow` | src/data_validation.rs:203-243 | a malformed record, its cells and its length, collected under the cap |
| `CsvValidator.CheckFields` | src/data_validation.rs:217-234 | the cells of one record in schema order, stopping at the cap |
| `CsvValidator.CheckMissing` | src/data_validation.rs:153-168 | the schema columns absent from the header, under the cap |
| `CsvValidator.CheckExtra` | src/data_validation.rs:172-182 | the header columns absent from the schema, added under the cap |
| `CsvValidator.HeadersOnlyMeaning` | src/data_validation.rs:152-195 | headers-only validity is a readable header with exactly the schema's names |
| `CsvValidator.StrictMeaning` | src/data_validation.rs:107-251 | strict validity is a readable header with exactly the schema's names and every record readable, long enough, and with the cell in the last column of each field's name, less surrounding whitespace, meeting the field |
| `CsvValidator.ErrorsExactly` | src/data_validation.rs:153-243 | the strict checker reports exactly the missing and unexpected columns and, with its row number, each unreadable or short record and each defective cell |
| `CsvValidator.ErrorsAreOrdered` | src/data_validation.rs:198-244 | errors come in row order, the header first |
| `CsvValidator.HeaderIndexIsLast` | src/data_validation.rs:147-150 | a field is looked up in the last column of its name |
| `CsvValidator.CellMeetsExactly` | src/data_validation.rs:226-227 | a cell has no defect if and only if, less its surrounding whitespace, it meets the field |
| `Basics.TrimWhitespaceMeaning` | src/data_validation.rs:226 | trimming a cell removes its surrounding whitespace and nothing else |
| `Basics.TrimIsUnique` | src/data_validation.rs:226 | and the trimmed text is the only one like that |
| `CsvValidator.ModesAreOrdered` | src/data_validation.rs:107-251 | strict implies headers-only implies no validation, which only needs a readable header |
| `RowAccounting.LoadAndConcat` | src/handlers.rs:342-380 | the loop writes one header and every non-empty later line of the readable files in order |
| `RowAccounting.ConcatInOrder` | src/handlers.rs:355-379 | concatenation of files splits at every file: the later ones follow the earlier ones, without a header if an earlier one had a line |
| `RowAccounting.ConcatOfOne` | src/handlers.rs:364-377 | one file contributes its first line unless a header was emitted, then its other lines that are not empty |
| `RowAccounting.NonEmptyInOrder` | src/handlers.rs:370-376 | dropping empty lines keeps the others in order |
| `RowAccounting.CountRowsMeaning` | src/api/credentials.rs:409-417 | the row count is the number of lines with a character that is not whitespace, less one, and none if there is at most one |
| `RowAccounting.LinesAreParts` | src/api/credentials.rs:411 | the lines of a text are what lies between its newlines, less one carriage return before each, less an empty end |
| `RowAccounting.LinesOfUnlines` | src/api/credentials.rs:409-417 | writing lines out and splitting them again keeps the number of non-blank lines |
| `RowAccounting.ConcatNonBlank` | src/handlers.rs:355-379 | the non-blank lines of the concatenation are the body rows of all files and at most one header |
| `RowAccounting.RowsAgreeExactly` | src/api/credentials.rs:409-417 | per-file row counts sum to the count of the concatenation if and only if the number of files hiding rows under a blank first line is 1, when the first non-empty file starts with a blank line and any file has a row, and 0 otherwise |
| `RowAccounting.BlankFileFirst` | src/handlers.rs:355-379 | after a file of one blank line, a file with a header and rows is over-counted although no file hides rows |
| `RowAccounting.HiddenRowSecond` | src/handlers.rs:355-379 | after a file of one blank line, a file that hides rows is counted right |
| `RowAccounting.BlankFileWitness` | src/handlers.rs:355-379 | concrete files for both cases |
| `RowAccounting.RowsAgree` | src/api/credentials.rs:409-417 | they agree when every file is empty or starts with a non-blank line |
| `Issuance.EveryRunIsBalanced` | src/api/credentials.rs:760-947 | over every serial run with failures at any step, the total is the rows of the stored files that are not orphans, and stored records do not exceed burns |
| `Issuance.TotalIsCompletedRows` | src/api/credentials.rs:686-947 | in every run the total is the sum of the rows of the CSVs of the calls that completed |
| `Issuance.StoredFileStays` | src/api/credentials.rs:664-905 | in every run a file holds the CSV of the last call that stored under its name |
| `Issuance.IssuedFileStays` | src/api/credentials.rs:876-905 | with new record names every stored issuance keeps its CSV for good |
| `Issuance.FilesComeFromCalls` | src/api/credentials.rs:664-905 | in every run a file exists if and only if some call stored under its name |
| `Issuance.BurnsAreCounted` | src/api/credentials.rs:852-874 | in every run the number of burned tokens is the number of calls that burned one |
| `Issuance.ReadyIsReached` | src/api/credentials.rs:625-690 | a pool is ready if and only if an initialisation completed |
| `Issuance.TotalPlusOrphans` | src/api/credentials.rs:870-947 | total plus the rows of files whose metadata update failed is the rows of all stored files |
| `Issuance.TotalAgainstFiles` | src/api/credentials.rs:870-947 | the total never exceeds the stored rows and equals them when no metadata write fails |
| `Issuance.TotalAgainstConcatenation` | src/handlers.rs:342-380 | total plus orphans equals the rows given to the script if and only if the number of files hiding rows under a blank first line is 1, when the first non-empty file starts with a blank line and any file has a row, and 0 otherwise |
| `Issuance.StoredAtMostBurned` | src/api/credentials.rs:852-905 | never more issued records stored than append tokens burned |
| `Issuance.PoolStore.InitializePool` | src/api/credentials.rs:625-690 | the handler's state change at each point of failure, once per pool |
| `Issuance.PoolStore.IssueCredentials` | src/api/credentials.rs:775-947 | burn, store the CSV of the call, then update the total, with the state left by each failure, a burn that takes effect unconfirmed included; `IssuedFileStays`, `TotalIsCompletedRows` and `BurnsAreCounted` state it over runs |
| `IssuanceLock.StepIsSafe` | src/api/credentials.rs:814-947 | every step of any issuance or revocation keeps lock ownership, burn before file before credit, and the token supply; that steps also make progress is `LockIsGivenBack` and `UndisturbedAttempt` |
| `IssuanceLock.EveryInterleavingIsSafe` | src/api/credentials.rs:814-947 | that invariant holds in every interleaving of any number of issuances and revocations |
| `IssuanceLock.MutualExclusion` | src/api/credentials.rs:351-357 | at most one issuance is between acquiring and releasing the pool lock |
| `IssuanceLock.LockIsGivenBack` | src/api/credentials.rs:847-849 | in every reachable state the holder of the lock can finish by its own steps alone, which frees the lock and changes nothing else, and then any waiting issuance gets it |
| `IssuanceLock.HeldLockIsAwaited` | src/api/credentials.rs:847-849 | while the lock is held, acquiring changes nothing |
| `IssuanceLock.UndisturbedAttempt` | src/api/credentials.rs:814-947 | an undisturbed issuance burns, stores and credits exactly what comes before the operation that fails, if any, and ends finished with the lock free |
| `IssuanceLock.NoBalanceNoAttempt` | src/api/credentials.rs:814-829 | without a balance an issuance ends at the check and changes nothing else |
| `IssuanceLock.UndisturbedRevocation` | src/api/credentials.rs:1100-1104 | an undisturbed revocation adds its count and keeps the total |
| `IssuanceLock.StoredBurnedSupply` | src/api/credentials.rs:814-905 | in every interleaving, unconfirmed burns included, each stored record has its own burn and burns plus balance stay the supply |
| `IssuanceLock.BurnComesFirst` | src/api/credentials.rs:852-905 | a file appears only after its token was burned |
| `IssuanceLock.LockKeepsCopiesCurrent` | src/api/credentials.rs:943-947 | among issuances alone, a loaded copy of the metadata is still current when written back |
| `IssuanceLock.NoUpdateIsLost` | src/api/credentials.rs:847-947 | among issuances alone, the total is the initial total plus the rows of every issuance that saved |
| `IssuanceLock.AccountedExactlyWhenNotOvertaken` | src/api/credentials.rs:1100-1104 | in every interleaving of issuances and revocations the total is right at every point if and only if no revocation saves after an issuance with rows was credited since that revocation loaded |
| `IssuanceLock.AccountedExactlyWhenFresh` | src/api/credentials.rs:943-947 | in every interleaving the total is right at every point if and only if every metadata write starts from the current total |
| `IssuanceLock.CreditedGrows` | src/api/credentials.rs:943-947 | the credited rows never fall, and grow exactly when an issuance with rows is credited |
| `IssuanceLock.RevocationLosesUpdate` | src/api/credentials.rs:1100-1104 | a run in which an unlocked revocation erases the rows of a paid and stored issuance, for any row count |
| `KeyOrder.TimeKeyOrder` | src/storage/tx_database.rs:1005-1012 | composite keys with one prefix are ordered by inverted time, then suffix |
| `KeyOrder.InversionReverses` | src/storage/tx_database.rs:1005-1012 | one time's key is smaller if and only if it is later on the same side of 1970, or before 1970 when the other is not |
| `KeyOrder.PrefixScan` | src/storage/tx_database.rs:690-729 | a scan from a prefix meets exactly the keys with the prefix first, then only others |
| `AuditIndex.ListingIsExact` | src/storage/tx_database.rs:690-729 | in every run the listing is the resource's history, newest first, if and only if no logged name extends the resource's and its times do not straddle 1970 |
| `AuditIndex.CountIsHistoryLength` | src/storage/tx_database.rs:732-746 | the count is the history's length if and only if no logged name extends the resource's |
| `AuditIndex.HistoryMeaning` | src/storage/tx_database.rs:690-729 | the history holds exactly the resource's events, newest first with ties by identifier |
| `AuditIndex.IndexedIsComplete` | src/storage/tx_database.rs:663-687 | in every run each index key leads to a stored event |
| `AuditIndex.AuditStore.LogAuditEvent` | src/storage/tx_database.rs:663-687 | logging keeps the tables those of the whole log |
| `AuditIndex.AuditStore.ListAuditByResource` | src/storage/tx_database.rs:690-729 | the skipping, limited scan is the requested page of the listing, hence of the history |
| `AuditIndex.AuditStore.CountAuditByResource` | src/storage/tx_database.rs:732-746 | the counting scan counts the whole listing |
| `AuditIndex.PagesReadHistory` | src/storage/tx_database.rs:690-729 | reading a resource page after page, for every page size, gives its history if and only if no logged name extends the resource's and its times do not straddle 1970 |
| `GrantIndex.EveryRunIsConsistent` | src/storage/tx_database.rs:867-926 | in every run of upserts and revocations over grants of which no two share exactly one key, the analyst index holds exactly the keys of active records |
| `GrantIndex.ApplyKeepsConsistent` | src/storage/tx_database.rs:867-926 | each operation over such grants keeps that agreement, revoking an unknown grant included |
| `GrantIndex.AgreementExactly` | src/storage/tx_database.rs:867-986 | for any set of grants, index and record agree on all of them in every run over them if and only if no two of them share one of their two keys and not the other |
| `GrantIndex.AgreementSurvivesExactly` | src/storage/tx_database.rs:867-926 | from agreement on all grants, an upsert or revocation keeps it if and only if every grant sharing exactly one key with its target already has the new answer |
| `GrantIndex.AgreementOverRuns` | src/storage/tx_database.rs:867-926 | agreement holds all through a run if and only if each operation meets that condition |
| `GrantIndex.AnswersAfter` | src/storage/tx_database.rs:867-986 | what either lookup answers for any grant after any operation |
| `GrantIndex.PlainIsUnambiguous` | src/storage/tx_database.rs:867-926 | pools and analysts without separators never share exactly one key, whatever the rights are called |
| `GrantIndex.IndexAgreesWithRecord` | src/storage/tx_database.rs:974-986 | hence in every run over such grants the index answers as the record does |
| `GrantIndex.SplitUndoesKey` | src/storage/tx_database.rs:958-963 | splitting at two separators undoes key building, even for right names that contain separators |
| `GrantIndex.SeparatorsBreakTheIndex` | src/api/admin.rs:452-456 | for any two separator-free pools there are grants, with separators in an analyst identifier and a right name, of which revoking one hides the other active one |
| `GrantIndex.RangeOfPrefix` | src/storage/tx_database.rs:950-953 | the half-open range up to U+10FFFF holds the keys with the prefix, except those that continue with U+10FFFF |
| `GrantIndex.FoundAreGrants` | src/storage/tx_database.rs:946-972 | the index scan finds exactly the analyst's active grants on pools that do not start with U+10FFFF, once each and in order |
| `GrantIndex.ListingIsCompleteExactly` | src/storage/tx_database.rs:946-972 | it finds all active grants of the analyst if and only if none of their pools starts with U+10FFFF |
| `GrantIndex.FoundAreActive` | src/storage/tx_database.rs:964-969 | whatever the tables hold, only active records under keys that name the analyst are listed |
| `GrantIndex.GrantIsStored` | src/storage/tx_database.rs:867-891 | a granted record is stored as given until an operation on its key |
| `GrantIndex.RevocationIsRecorded` | src/storage/tx_database.rs:894-926 | a revocation keeps the record with its own status, time and signature until an operation on its key |
| `GrantIndex.GrantStore.UpsertGrant` | src/storage/tx_database.rs:867-891 | record and index change together and stay consistent |
| `GrantIndex.GrantStore.RevokeGrantLocal` | src/storage/tx_database.rs:894-926 | record marked, index key dropped, and the result says whether there was a record |
| `GrantIndex.GrantStore.ListGrantsByAnalyst` | src/storage/tx_database.rs:946-972 | the loop returns what the scanned keys lead to, which on consistent tables is the analyst's active grants on pools that do not start with U+10FFFF |
| `GrantIndex.GrantStore.IsGrantActive` | src/storage/tx_database.rs:976-986 | the index lookup, which on consistent tables says whether the record is active |
| `WalletTxIndex.IndexKeyOrder` | src/storage/tx_database.rs:991-1003 | raw byte keys of an address are ordered by inverted time, then signature |
| `WalletTxIndex.KeyDecodes` | src/storage/tx_database.rs:257-259 | a key is valid UTF-8 (section 4 of RFC 3629) if and only if its address, eight time bytes and signature are |
| `WalletTxIndex.PresentKeysDoNotDecode` | src/storage/tx_database.rs:257-259 | no key with a time from 1970 on that fits 56 bits decodes |
| `WalletTxIndex.IndexedExactly` | src/storage/tx_database.rs:194-215 | in every run of upserts the index holds exactly the keys of what was upserted |
| `WalletTxIndex.BlockOfAddress` | src/storage/tx_database.rs:234-284 | in every run the block of a separator-free address holds exactly the keys of the transactions upserted for it |
| `WalletTxIndex.ListingIsAlwaysEmpty` | src/storage/tx_database.rs:234-284 | in every run of upserts with times from 1970 on that fit 56 bits, the listing of any address is empty without a cursor, wherever it starts |
| `WalletTxIndex.FirstPageEmpty` | src/storage/tx_database.rs:234-284 | the first page is empty without a cursor if and only if the address has no key or its first key does not decode |
| `WalletTxIndex.WalkTakesBlock` | src/storage/tx_database.rs:254-281 | a page is the next limit decodable keys of the address, its cursor the key after them |
| `WalletTxIndex.PagingIsCompleteExactly` | src/storage/tx_database.rs:229-284 | following the cursors visits every entry once and in order, for every page size, if and only if every key of the address decodes |
| `WalletTxIndex.IntendedPagingIsComplete` | src/storage/tx_database.rs:229-284 | without the decode, following the cursors is complete |
| `WalletTxIndex.PagingIsNewestFirst` | src/storage/tx_database.rs:991-994 | in every run the visited entries of an address come from upserts for it and, among times on one side of 1970, are newest first with ties by signature |
| `WalletTxIndex.TxStore.UpsertTransaction` | src/storage/tx_database.rs:194-215 | the record is stored, the index stays that of all upserts so far, and every entry keeps naming a stored transaction |
| `WalletTxIndex.LastDirectionWins` | src/storage/tx_database.rs:206-211 | each address gets an entry with the last direction given for it |
| `WalletTxIndex.OtherEntriesStay` | src/storage/tx_database.rs:206-211 | an entry under no key of the transaction stays as it was |
| `WalletTxIndex.LatestUpsertIsStored` | src/storage/tx_database.rs:201-204 | in every run the last upsert of a signature is what is stored |
| `WalletTxIndex.EntriesMeaning` | src/storage/tx_database.rs:270-280 | every listed entry is the transaction its key names with the direction stored under the key |
| `WalletTxIndex.TxStore.ListByWallet` | src/storage/tx_database.rs:234-284 | a forged cursor is refused, otherwise the page of the decoding walk with its transactions and directions |
| `WalletTxIndex.TxStore.WalkEntries` | src/storage/tx_database.rs:254-281 | the scan loop is the decoding walk |
| `Nonces.RepeatAcceptedExactlyAfterPurge` | src/storage/tx_database.rs:818-861 | in every run a repeated nonce is accepted if and only if a purge in between reached its time |
| `Nonces.StaysUntilPurged` | src/storage/tx_database.rs:818-861 | an accepted nonce stays recorded with its time until a purge reaches it |
| `Nonces.AcceptancesAreSpaced` | src/storage/tx_database.rs:818-861 | with a clock that does not go back, two acceptances of a nonce are further apart than the smallest purge age |
| `Nonces.NonceStore.RecordNonce` | src/storage/tx_database.rs:818-832 | says new if and only if the nonce is not recorded, and records the first time only |
| `Nonces.NonceStore.PurgeExpiredNonces` | src/storage/tx_database.rs:835-861 | removes exactly the expired nonces and returns how many |
| `Nonces.CollectExpired` | src/storage/tx_database.rs:840-852 | the collecting scan finds exactly the entries before the cutoff |
| `Poller.StoredExactly` | src/indexer/poller.rs:100-249 | in every run, polls ended early by a database error included, an entry of the address's history is stored if and only if another address stored it or a poll fetched it among its 50 newest, got to it and did not lose it |
| `Poller.IndexedExactly` | src/indexer/poller.rs:143-146 | it enters the address's own index if and only if a poll took it before any other address had stored it |
| `Poller.CheckpointIsNewest` | src/indexer/poller.rs:109-142 | in every run the checkpoint is the newest signature that a completed poll has seen |
| `Poller.FetchWindow` | src/indexer/poller.rs:117-125 | a poll fetches exactly the newest 50 beyond the checkpoint |
| `Poller.PollRecords` | src/indexer/poller.rs:135-243 | what one more poll stores and indexes, entry by entry |
| `Poller.NoGaps` | src/indexer/poller.rs:100-249 | without losses and with at most 50 new signatures per completed poll, everything since the first find is stored |
| `Poller.GapIsForever` | src/indexer/poller.rs:240-243 | an entry that a completed poll passes below its 50 newest, not stored by then, is never stored by later polls |
| `Poller.Indexer.PollAddress` | src/indexer/poller.rs:100-249 | the loop changes checkpoint, transactions and index as the poll step says, an early return included |
| `Wallets.EveryRunIsSound` | src/api/wallets.rs:94-134 | in every run the owner index leads to a live wallet of that owner and the address map to the wallet of that address |
| `Wallets.ApplyKeepsSound` | src/api/wallets.rs:94-134 | each of the four operations keeps that |
| `Wallets.DeletedIsTerminal` | src/storage/repository/wallets.rs:112-153 | wallets are never removed or handed over, and deletion is final |
| `Wallets.OutcomeMeaning` | src/api/wallets.rs:94-134 | each outcome of each operation in exactly its case; every refusal but that of a second wallet leaves the state alone |
| `Wallets.UntouchedStays` | src/storage/repository/wallets.rs:112-150 | a stored wallet stays as it is through every run that does not name it |
| `Wallets.LastStatusWins` | src/api/admin.rs:253-316 | in every run the last deletion, suspension or activation that names a wallet decides its status, provided it went through |
| `Wallets.CreatedIsStored` | src/api/wallets.rs:100-116 | a creation with a short enough label and a new identifier stores owner, address and active status until an operation names the wallet, even when the user slot is then found taken |
| `Wallets.AddressIsRegistered` | src/api/wallets.rs:118-121 | the address of such a creation leads to its wallet until another creation brings the same address |
| `Wallets.SlotIsTakenAndFreed` | src/storage/tx_database.rs:373-406 | a creation that went through holds the user slot until a deletion by that user, and a deletion that went through frees it |
| `Wallets.UniquenessSurvivesExactly` | src/api/wallets.rs:123-134 | one live wallet per user survives an operation if and only if it is neither a create for a taken slot nor a delete of a wallet outside the slot |
| `Wallets.UniquenessOverRuns` | src/api/wallets.rs:123-134 | the rule holds through every run without those two kinds of operation |
| `Wallets.RefusedCreateLeavesWallet` | src/api/wallets.rs:114-130 | a creation refused as duplicate leaves a second live wallet |
| `Wallets.RepeatedDeleteFreesSlot` | src/api/wallets.rs:261-269 | deleting an old wallet again frees the slot of the new one |
| `Wallets.WalletService.CreateWallet` | src/api/wallets.rs:94-134 | store, register the address, then look at the owner's slot, with each outcome |
| `Wallets.WalletService.RegisterWalletOwner` | src/storage/tx_database.rs:373-387 | takes a free slot, or reports the wallet that holds it and changes nothing |
| `Wallets.WalletService.DeleteWallet` | src/api/wallets.rs:261-269 | ownership check, soft delete, slot freed |
| `Wallets.WalletService.SuspendWallet` | src/api/admin.rs:253-261 | refuses missing and deleted wallets, otherwise suspends |
| `Wallets.WalletService.ActivateWallet` | src/api/admin.rs:307-315 | refuses missing and deleted wallets, otherwise activates |
| `AtomicPublish.NeverTorn` | src/drt/runtime.rs:545-564 | in every interleaving of writers with distinct temporary names, from any left-over temporary files, crashes and failed renames included, readers see the initial content or one complete payload |
| `AtomicPublish.StepPublishes` | src/drt/runtime.rs:557-563 | under the invariant of all runs, a step publishes the whole payload of its writer if it is a rename after everything was written, and otherwise leaves the target alone |
| `AtomicPublish.LastRenameWins` | src/drt/runtime.rs:545-564 | in every interleaving the last rename that went through decides what readers see |
| `AtomicPublish.NoRenameNoChange` | src/drt/runtime.rs:545-564 | without one, readers see the initial content |
| `AtomicPublish.WriterCanPublish` | src/drt/runtime.rs:545-564 | under the invariant of all runs, a writer that has not started publishes its payload by opening, writing and renaming |
| `AtomicPublish.EveryRunKeepsInv` | src/drt/runtime.rs:545-564 | each active writer alone holds its inode, with exactly the prefix written so far, and no temporary name leads to the published one |
| `AtomicPublish.SharedNameTears` | src/storage/encrypted_fs.rs:196-207 | any two writers sharing a temporary name have a run that publishes an empty file |
| `AtomicPublish.TornExactlyWhenShared` | src/storage/encrypted_fs.rs:196-207 | no interleaving tears the file if and only if the temporary names are distinct |
| `ScriptCache.EveryExecutionIsVerified` | src/drt/runtime.rs:336-359 | in every run, with scripts tampered with and artefacts removed or spoiled at will, what executes is compiled from a script with the recorded hash |
| `ScriptCache.CachesAreInvisible` | src/drt/verified_fetch.rs:117-152 | with both caches in any trusted state a good download executes the module it gives without them |
| `ScriptCache.ExecutionsAgree` | src/drt/runtime.rs:336-359 | two executions for one hash, in any two runs, run the same module |
| `ScriptCache.TrustOverRuns` | src/drt/runtime.rs:243-274 | loadable artefacts stay compilations of scripts with their hash through every run |
| `ScriptCache.FetchedHasHash` | src/drt/verified_fetch.rs:117-186 | a fetched script has the recorded hash, whatever the cache held |
| `ScriptCache.CachedScriptAnswers` | src/drt/verified_fetch.rs:127-130 | a cached script with the recorded hash is returned, and nothing changes, whatever the download |
| `ScriptCache.UncachedFetch` | src/drt/verified_fetch.rs:132-152 | without one the download decides: missing, wrong hash, not storable, or kept and returned |
| `ScriptCache.FetchedOnceIsEnough` | src/drt/verified_fetch.rs:117-196 | after a fetch that succeeded every later fetch of the hash returns the same script without a download, until an event tampers with it or drops it |
| `ScriptCache.ScriptStays` | src/drt/verified_fetch.rs:162-186 | a cached script stays through every run that does not tamper with it or drop it |
| `ScriptCache.ArtefactAnswers` | src/drt/runtime.rs:336-346 | an artefact that loads is what runs, whatever the script is |
| `ScriptCache.ArtefactIsPublished` | src/drt/runtime.rs:243-274 | when the engine loads what it serialises, a script that compiles leaves a loadable artefact if the write succeeds, at precompilation or when healing; a failed write changes nothing |
| `ScriptCache.ModuleStays` | src/drt/runtime.rs:243-274 | a loadable artefact stays through every run that does not touch it |
| `ScriptCache.ExecutedOnceIsEnough` | src/drt/runtime.rs:243-359 | when the engine loads what it serialises, after a query that executed and could write its artefact every later query for the hash runs the same module and changes nothing, whatever the download, until an event touches script or artefact |
| `ScriptCache.SelectedIsCompiled` | src/drt/runtime.rs:336-359 | the cached, healed or compiled module is the compilation of the script |
| `ScriptCache.ScriptService.Fetch` | src/drt/verified_fetch.rs:117-196 | a cached script that hashes right is returned, otherwise download, check, store, with each error; `CachedScriptAnswers`, `UncachedFetch` and `FetchedOnceIsEnough` state it without the step function |
| `ScriptCache.ScriptService.Precompile` | src/drt/runtime.rs:243-274 | keeps a loadable artefact, otherwise compiles and publishes, and keeps trust |
| `ScriptCache.ScriptService.RunBlocking` | src/drt/runtime.rs:336-359 | artefact first, compile and heal when it does not load, and keeps trust |
| `ScriptCache.ScriptService.Execute` | src/drt/runtime.rs:243-359 | a whole query is fetch, precompile and select, and keeps trust |

## Left out

- Printer.PushF64: infinities and NaN are one value, which prints as `null`.
- Poller.NoGaps: is a sufficient condition; the exact one is `Poller.StoredExactly`.
- MeanScanner.ComputeMean: reads cells over exact reals, so rounding inside the number reader is not modelled.
- LinearMemory.ArenasDisjointExactly: a global block that does not start at a multiple of 8 may lie in the gap between two public blocks, and is not covered.
- IEEE rounding of `f64`, other than through the arbitrary arithmetic of the scanner.
- UTF-8 conversion in the script, which is a parameter, and the host's memory copies around a script run.
- The date formats of the validator, which are a parameter, and the wording of its messages, which are constructors.
- The CSV library (quoting and line handling of section 2 of RFC 4180): the validator model starts from the header and records it yields.
- Row counts of files that are not UTF-8, which the handler decodes lossily and the concatenation skips.
- Concurrent calls of pool initialisation, and cancellation of a request while it holds the pool lock.
- The redb copies of pool metadata and issuance records, audit entries and logging around each handler.
- `list_pool_grants`, audit events by date, and issuance and revocation listings: the same scans over the same kinds of keys.
- On-chain grants and revocations, the order of chain calls and local mirror updates, and everything behind RPC, HTTP, RA-TLS, authentication and signing.
- Amounts, direction and counterparty of indexed transactions, and the cooldown of one-shot syncs.
- Storage failures inside wallet operations, and concurrent wallet requests.
- The HMAC of cursors: a cursor is its raw key and whether it is authentic.
- redb transactions, wasmtime, Gramine's encrypted file system and serde.
