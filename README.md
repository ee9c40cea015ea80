# finance-manager core, modelled in Dafny

This project models the core of *finance-manager*, a personal-finance desktop app, and proves properties of the model. The core is the app's recurrence-and-aggregation engine, `src/data`:

- **Cycles.** A transaction repeats daily, weekly, monthly, yearly or only once (`Cycle::next`).
- **Reporting periods.** A period (day, week, month, year or all time) becomes a concrete `[start, end]` pair relative to "now".
- **Transactions.** Each has a validity rule and a field-wise difference test. Its occurrences are found by walking its cycle from the start date and keeping the dates inside the period; `for_period` multiplies the amount by the number of occurrences. Transactions are stored with `%Y-%m-%d` dates, checked so that the end is not before the start.
- **Balances.** A fold sorts amounts into an income bucket and an expense bucket. Balances are joined pointwise and formatted with a sign and space-grouped thousands.
- **Currencies.** Five fixed currencies, case-insensitive parsing, per-currency rounding, conversion through exchange rates, and an amount formatter.
- **Wallets and the document (`Data`).** Id-keyed lists of transactions and of wallets, with find, remove and add-or-update, plus the period → convert → fold pipeline behind the total balance.

Three smaller pieces outside `src/data` are included:

- the string rewriting in `build/metadata.rs` that derives the application id, title and resource path;
- the data-file naming and most-recent-file selection in `src/context/data_directory.rs`;
- two business rules of the transaction editor page: how the saved end date is chosen, and the duplicate-transaction conflict checked before saving.

Modules follow the source files:

- **Per source file:** `Cycles`, `Periods`, `Transactions`, `Balances`, `Currencies`, `Wallets`, `Finances` (`src/data/mod.rs`), `Metadata`, `DataDirectories`, `TransactionPage`.
- **Helpers:**
  - `Calendar`: the proleptic Gregorian dates of chrono's `NaiveDate`.
  - `DateText`: `%Y-%m-%d` formatting and parsing.
  - `Text`: trim, ASCII case mapping, UTF-8 length, split/join and digit strings.
  - `Formatting`: `{:.2}`.
  - `Numbers`: `abs`, `round`, and an `F64` type that is either finite or not.
  - `Ids`: the `AtomicUsize` id counter, modelled as a class.
  - `IdLists`: the shared `position`/`find`/`retain` list algebra.
  - `Orbits`, `Walks` and `WalkProperties`: the occurrence loop.

The model's choices:

- **Imperative code stays imperative.**
  - The occurrence loop is a `method` with a `while` loop (`Walks.WalkLoop`), proved equal to a recursive specification `Walks.Walk`.
  - The `position`/`retain` passes over a `Vec` are methods with loops (`IdLists.Position`, `IdLists.Retain`).
  - `Data`, mutated in place through `&mut self`, is a class whose methods modify its fields.
  - The global id counter is a class with a `FetchAdd` method.
- **`Wallet` is a value.** Its `&mut self` methods are methods that return the updated wallet. Rust's ownership rules mean no other reference can observe the change.
- **Amounts are `real`.** Where the source tests `is_finite`, the amount is an `F64` that is either `Finite(r)` or `NonFinite`.
- **"Now", "today" and the exchange rates are parameters.** The rates are a sequence indexed by currency, EUR included.
- **`APP_NAME` is a parameter.** The file system is an existence predicate plus a modification-time function.

## Model

| member | source | states |
|---|---|---|
| Cycles.LabelsAndDefault | src/data/cycle.rs:16-27 | the label table gives "One Time" for the default cycle; labels are non-empty and distinct |
| Cycles.AllCyclesInOrder | src/data/cycle.rs:30-38 | `as_slice` lists every cycle once, in declaration order, so indexing the label table by position matches |
| Cycles.Next | src/data/cycle.rs:51-63 | no next date exactly for a one-time cycle; otherwise the next date is strictly later |
| Cycles.NextByDays | src/data/cycle.rs:53-54 | daily moves the day number by 1 and weekly by 7, so weekly keeps the weekday |
| Cycles.NextByMonths | src/data/cycle.rs:55-60 | monthly is the next calendar month and yearly the same month next year, with the day clamped to the month's length |
| Cycles.MonthlyFromJanuary31 | src/data/cycle.rs:55-57 | January 31 steps to February 29 in a leap year and to February 28 otherwise |
| Periods.Bounds | src/data/period.rs:46-78 | definition: Day is (now, now); Week runs from the Monday on or before now to the earlier of that Sunday and now; Month from day 1 to the earlier of the month's last day and now; Year from January 1 to the earlier of December 31 and now; All from 1970-01-01 to now |
| Periods.LabelsAndDefault | src/data/period.rs:14-44 | the default period is All; labels are distinct; `as_slice` lists every period in declaration order |
| Periods.WeekBounds | src/data/period.rs:52-56 | the week starts on the Monday on or before now, at most six days back, and its nominal end is a Sunday on or after now |
| Periods.MonthBounds | src/data/period.rs:57-65 | the month runs from day 1 to the month's last day, which is not before now |
| Periods.YearBounds | src/data/period.rs:66-70 | the year starts on January 1, and December 31 is not before now |
| Periods.WeekEndsAtNow | src/data/period.rs:52-56 | the clamped week end is now itself, and the start is not after it |
| Periods.BoundsEndAtNow | src/data/period.rs:46-78 | for every period the end is now and the start is not after the end (for All, when now is not before 1970-01-01) |
| Calendar.DaysInMonth | src/data/period.rs:59-60 | month lengths run 28 to 31, with 29 exactly for February of a leap year |
| Calendar.FromYmdOpt | src/data/period.rs:58 | a date is returned exactly when year, month and day form a valid date, and it is that date |
| Calendar.LessIsLexicographic | src/data/transaction.rs:88 | date order is lexicographic on (year, month, day) |
| Calendar.RankInjective | src/data/transaction.rs:88 | two dates are equal exactly when their ranks are, so the order is total |
| Calendar.Min | src/data/period.rs:55 | `min` is one of its arguments and not after either |
| Calendar.AddDays | src/data/cycle.rs:53-54 | definition: `date + Duration::days(n)` is n successor steps |
| Calendar.Succ | src/data/cycle.rs:53 | the next day is strictly later |
| Calendar.Pred | src/data/period.rs:60 | the previous day is strictly earlier |
| Calendar.AddMonths | src/data/cycle.rs:55-60 | definition: `checked_add_months(n)` moves n months on, counting months from year × 12, and clamps the day to the length of the month reached |
| Calendar.AddOneMonth | src/data/cycle.rs:56 | adding one month moves to the next month (December to January of the next year), clamping the day |
| Calendar.AddTwelveMonths | src/data/cycle.rs:59 | adding twelve months keeps the month and changes February 29 to February 28 when the next year is not leap |
| Calendar.AddMonthsLater | src/data/cycle.rs:55-60 | adding one or more months gives a strictly later date |
| Calendar.DayNumberSucc | src/data/cycle.rs:53 | the next day has the next day number |
| Calendar.DayNumberAddDays | src/data/cycle.rs:53-54 | adding n days adds n to the day number |
| Calendar.DayNumberSubDays | src/data/period.rs:53 | subtracting n days subtracts n from the day number |
| Calendar.AddSubDays | src/data/period.rs:53-54 | going back n days and forward n days returns to the same date |
| Calendar.DayNumberOrder | src/data/transaction.rs:88 | date order agrees with day-number order, in both directions |
| Calendar.DaysFromMonday | src/data/period.rs:53 | the weekday number is below 7 |
| Calendar.EpochIsThursday | src/data/period.rs:72 | 1970-01-01 is a Thursday (weekday number 3) |
| Walks.Walk | src/data/transaction.rs:93-112 | definition: stop once the date is after the limit or after the period's end, keep the date when it is not before the period's start, and go on from the cycle's next date while there is one |
| Walks.WalkLoop | src/data/transaction.rs:93-112 | the loop returns exactly the recursive walk from the start date |
| WalkProperties.IterateForward | src/data/transaction.rs:105-106 | every point of the orbit is on or after its start |
| WalkProperties.WalkBounds | src/data/transaction.rs:96-103 | every kept date lies between the start and the limit and inside the period |
| WalkProperties.WalkIsFilteredOrbit | src/data/transaction.rs:96-110 | a date is kept exactly when it is on the cycle's orbit, not after the limit and inside the period, so breaking early loses nothing |
| WalkProperties.WalkIsFilteredOrbitSound | src/data/transaction.rs:96-110 | every kept date is on the orbit |
| WalkProperties.WalkIsFilteredOrbitComplete | src/data/transaction.rs:96-110 | every orbit point within the limit and the period is kept |
| WalkProperties.WalkIncreasing | src/data/transaction.rs:96-110 | the kept dates are strictly increasing |
| Transactions.Default | src/data/transaction.rs:21-33 | the default transaction is neither created nor valid |
| Transactions.IsCreated | src/data/transaction.rs:49-51 | definition: created exactly when the id is not 0 |
| Transactions.IsValid | src/data/transaction.rs:53-75 | definition: a valid name, a description of at most 500 bytes, a non-zero amount, and no end date before the start date |
| Transactions.IsDifferent | src/data/transaction.rs:77-84 | definition: some field other than the id differs |
| Transactions.NameValidIff | src/data/transaction.rs:54 | a name passes exactly when it is not all whitespace and is at most 100 UTF-8 bytes |
| Transactions.IsDifferentIgnoresId | src/data/transaction.rs:77-84 | two transactions are not different exactly when they agree on everything but the id; the relation is irreflexive and symmetric |
| Transactions.AssignGlobalId | src/data/transaction.rs:37-46 | a created transaction is returned unchanged; otherwise it takes the counter's value as id and the counter advances by one |
| Transactions.Occurrences | src/data/transaction.rs:86-113 | definition: none when the start is after now, else the walk from the start date to `end_date.unwrap_or(now)` within `bounds` |
| Transactions.OccurrencesInPeriod | src/data/transaction.rs:86-113 | the method returns the specification `Occurrences`: none when the start is after now, else the walk to `end_date.unwrap_or(now)` |
| Transactions.CountOccurrences | src/data/transaction.rs:115-118 | the number of occurrences, none exactly when the transaction starts after now |
| Transactions.OccurrencesSpec | src/data/transaction.rs:86-113 | none exactly when the start is after now; otherwise every date lies in the period and between the start and the end (or now), and the dates strictly increase |
| Transactions.OneTimeOccursOnce | src/data/transaction.rs:105-109 | a one-time transaction occurs at most once, on its start date |
| Transactions.DailyFillsDay | src/data/transaction.rs:96-110 | an open-ended daily transaction starting today occurs exactly once in the Day period |
| Transactions.ForPeriod | src/data/transaction.rs:120-126 | only the amount changes: it is the amount times the occurrence count (none counts as 0), so it is zero when the transaction starts after now |
| Transactions.ForPeriodValid | src/data/transaction.rs:120-126 | a valid transaction stays valid for the period exactly when it occurs at least once |
| Transactions.ScaledValid | src/data/transaction.rs:123 | scaling a valid transaction by k keeps it valid exactly when k > 0 |
| Transactions.Encode | src/data/transaction.rs:172-187 | definition: every field but the id, with the dates written as `%Y-%m-%d` |
| Transactions.Decode | src/data/transaction.rs:139-170 | each error case exactly when its cause holds: an unparsable start, an unparsable end, an end before the start; success exactly when none holds; on success the fields are copied, the dates are the parsed ones, and the end is not before the start |
| Transactions.Deserialize | src/data/transaction.rs:139-170 | the result is `Decode` with the counter's value as id, and the counter advances only on success |
| Transactions.DecodeEncode | src/data/transaction.rs:146-183 | decoding an encoded transaction gives it back with the fresh id, unless its end is before its start, which is rejected |
| Transactions.ValidRoundTrips | src/data/transaction.rs:146-183 | every valid transaction survives encoding and decoding, up to the id |
| DateText.FormatDate | src/data/transaction.rs:182-183 | definition: `%Y-%m-%d`: the year zero-padded to four digits, with a sign outside 0..9999, then month and day as two digits each |
| DateText.ParseDate | src/data/transaction.rs:146-152 | definition: `parse_from_str(s, "%Y-%m-%d")`: leading whitespace skipped before each numeric field, then one to four year digits or a sign and any digits, '-', one or two month digits, '-', one or two day digits, nothing after, and a date that exists |
| DateText.ParseFormat | src/data/transaction.rs:182 | parsing the `%Y-%m-%d` text of any date gives the date back, for signed and five-or-more-digit years too |
| DateText.ParseSkipsLeadingWhitespace | src/data/transaction.rs:146-147 | whitespace before the year is skipped: an indented text parses exactly as the text itself |
| DateText.ParseMonthSkipsWhitespace | src/data/transaction.rs:146-152 | whitespace between the '-' and the month digits is skipped |
| DateText.ParseDaySkipsWhitespace | src/data/transaction.rs:146-152 | whitespace between the '-' and the day digits is skipped |
| DateText.ScanYearOf | src/data/transaction.rs:146 | the year field reads back the year it was written from |
| Balances.Income | src/data/balance.rs:43-54 | income is never negative |
| Balances.Expense | src/data/balance.rs:43-54 | expense is never negative |
| Balances.FromTransactions | src/data/balance.rs:43-54 | definition: the fold from the zero balance |
| Balances.NetBalance | src/data/balance.rs:56-59 | definition: income minus expense |
| Balances.Join | src/data/balance.rs:61-67 | definition: bucket-by-bucket sum |
| Balances.FoldSums | src/data/balance.rs:44-52 | the fold adds each amount ≥ 0 to income and the magnitude of each negative amount to expense, and nothing else |
| Balances.FromTransactionsSums | src/data/balance.rs:43-54 | `from_transactions` is (income sum, expense sum), both ≥ 0 |
| Balances.NetIsTotal | src/data/balance.rs:56-59 | the net balance is the plain sum of all amounts |
| Balances.IncomeConcat | src/data/balance.rs:43-54 | income and expense are additive over concatenation |
| Balances.FromTransactionsConcat | src/data/balance.rs:43-67 | `from_transactions` of a concatenation is the join of the parts |
| Balances.JoinMonoid | src/data/balance.rs:61-67 | join is commutative and associative, has the zero balance as identity, and adds net balances |
| Balances.FormatValue | src/data/balance.rs:11-41 | definition: the sign prefix, the grouped integer part of `{:.2}` of the size, "." and the two decimals |
| Balances.FormattedBalance | src/data/balance.rs:69-71 | definition: the net balance, always signed |
| Balances.FormatValueMeaning | src/data/balance.rs:11-41 | the text is prefix, grouped integer, ".", two digits; the prefix is "+" or "-" exactly when a sign is requested, by the sign of the value; the digits denote the value in hundredths |
| Balances.GroupedChars | src/data/balance.rs:24-38 | grouping adds nothing but spaces |
| Balances.FormattedBalanceSign | src/data/balance.rs:69-71 | the formatted balance starts with "+" exactly when the net balance is ≥ 0, else "-" |
| Text.GroupedIsByThrees | src/data/balance.rs:24-38 | the reverse/enumerate/flat_map chain equals groups of three from the right, separated by single spaces |
| Text.GroupedStripsBack | src/data/currency.rs:80-94 | deleting the spaces from grouped digits gives the digits back |
| Text.GroupedLength | src/data/currency.rs:80-94 | grouping n ≥ 1 characters adds (n − 1) / 3 separators |
| Text.TrimEmptyIffBlank | src/data/transaction.rs:54 | `trim().is_empty()` holds exactly when the string is all whitespace |
| Text.Utf8Len | src/data/transaction.rs:54 | the byte length of a string is between one and four bytes per character |
| Text.SplitJoin | build/metadata.rs:34-42 | splitting a joined list of separator-free parts gives the parts back |
| Text.DigitsRoundTrip | src/data/currency.rs:73 | the decimal digit string of n denotes n |
| Formatting.Cents | src/data/balance.rs:19 | the two-decimal rendering is the value in hundredths, rounded to within half a hundredth |
| Formatting.SplitFixedTwo | src/data/balance.rs:19-22 | splitting the `{:.2}` text at "." gives exactly the integer digits and the two decimals |
| Formatting.FixedTwoDenotes | src/data/balance.rs:19-40 | the integer digits (spaces removed) and the two decimals together denote the value in hundredths |
| Numbers.Round | src/data/currency.rs:72 | `round` is within one half, keeps the sign, and rounds ties away from zero |
| Numbers.RoundOdd | src/data/currency.rs:107 | rounding is symmetric: round(−x) = −round(x) |
| Currencies.TablesInOrder | src/data/currency.rs:20-46 | five currencies, `as_slice` in table order, codes distinct, USD is the default |
| Currencies.IsDefault | src/data/currency.rs:44-46 | definition: the currency equals `Currency::default()`, which is USD |
| Currencies.Lookup | src/data/currency.rs:148-155 | the match finds a currency exactly when the key is its code |
| Currencies.FromStr | src/data/currency.rs:147-156 | definition: trim, upper-case, then the code match |
| Currencies.FromStrSpec | src/data/currency.rs:147-156 | `from_str` succeeds with c exactly when the trimmed, upper-cased input is c's code |
| Currencies.FromStrShortStr | src/data/currency.rs:144-157 | every currency parses back from its code |
| Currencies.FromStrIgnoresCaseAndSpace | src/data/currency.rs:147-148 | a lower-case code surrounded by spaces still parses |
| Currencies.NormalizeAmount | src/data/currency.rs:102-110 | non-finite input gives 0; JPY rounds to a whole number within 0.5, others to hundredths within 0.005 |
| Currencies.NormalizeIdempotent | src/data/currency.rs:102-110 | normalising twice is normalising once |
| Currencies.Rate | src/data/currency.rs:112-118 | the euro's rate is 1; by definition every other currency reads its own entry of the fetched table |
| Currencies.ConvertAmount | src/data/currency.rs:120-129 | the same currency or a non-finite amount is returned unchanged; otherwise the result is finite |
| Currencies.Exchanged | src/data/currency.rs:128 | the exact converted amount times the origin rate equals the amount times the target rate |
| Currencies.ConvertNearExact | src/data/currency.rs:120-129 | with a known origin rate, the result is within the source currency's rounding step of the exact conversion |
| Currencies.ConvertFromEuro | src/data/currency.rs:112-128 | from EUR the rate is 1, so the result is the normalised amount times the target's rate |
| Currencies.ConvertUnknownSource | src/data/currency.rs:120-129 | when the origin rate is zero (missing from the fetched table) the non-finite quotient normalises to 0 |
| Currencies.FormatAmount | src/data/currency.rs:63-100 | definition, as written: "N/A" for a non-finite value; for JPY the symbol and the grouped rounded size; otherwise the sign, the symbol, the grouped integer part, "." and two decimals |
| Currencies.FormatAmountMeaning | src/data/currency.rs:63-100 | outside JPY: sign, symbol, grouped integer, ".", two decimals; the digits with spaces removed denote the size in hundredths |
| Currencies.FormatAmountYen | src/data/currency.rs:71-98 | for JPY: symbol and grouped rounded size, whose digits denote the rounded size |
| Currencies.FormatAmountDropsYenSign | src/data/currency.rs:96-98 | as written, every negative yen amount prints exactly like its positive counterpart; −5 yen prints as "¥5" |
| Currencies.FormatAmountSignedKeepsSign | src/data/currency.rs:68-98 | with the sign kept in the yen arm, the text starts with "-" exactly for negative values, and agrees with the source everywhere else |
| Wallets.Default | src/data/wallet.rs:18-28 | the default wallet is not created, not valid, in USD and empty |
| Wallets.IsCreated | src/data/wallet.rs:43-46 | definition: created exactly when the id is not 0 |
| Wallets.IsValid | src/data/wallet.rs:48-54 | definition: the transaction name rule, a description of at most 500 bytes, and every transaction valid |
| Wallets.IsDifferent | src/data/wallet.rs:56-64 | definition: name, description or currency differ, or `zip`/`any` finds a differing pair |
| Wallets.AnyPairDifferentIff | src/data/wallet.rs:60-63 | the zip/any finds a difference exactly when some common position holds different transactions |
| Wallets.AppendedIsNotDifferent | src/data/wallet.rs:56-64 | a wallet that only gains extra transactions is not "different", in either direction |
| Wallets.ChangedAmountIsDifferent | src/data/wallet.rs:56-64 | changing one transaction's amount makes the wallet different |
| Wallets.AssignGlobalId | src/data/wallet.rs:32-41 | a created wallet is returned unchanged; otherwise it takes the wallet counter's value and the counter advances |
| Wallets.FindTransactionById | src/data/wallet.rs:66-70 | the first transaction with that id, or none exactly when no transaction has it |
| Wallets.RemoveTransactionById | src/data/wallet.rs:72-74 | the wallet with its list filtered by `retain`, everything else kept |
| Wallets.AddOrUpdateTransaction | src/data/wallet.rs:76-82 | the wallet with the transaction replacing the first one with its id, or appended |
| Wallets.AddOrUpdateTransactionFinds | src/data/wallet.rs:76-82 | afterwards the transaction is found under its id and every other id finds what it found before |
| Wallets.RemoveTransactionFinds | src/data/wallet.rs:72-74 | afterwards the id is gone and every other id finds what it found before |
| Wallets.UpdatesKeepValid | src/data/wallet.rs:48-82 | adding a valid transaction, or removing any, keeps a valid wallet valid |
| Wallets.Balance | src/data/wallet.rs:84-87 | the wallet balance is the income and expense sums over all its transactions, and its net is their total |
| Wallets.ForPeriod | src/data/wallet.rs:89-99 | same wallet and same number of transactions; each is the transaction's own `for_period`, so only its amount changes |
| Wallets.ForPeriodNotStarted | src/data/wallet.rs:89-99 | transactions that all start after now contribute a zero balance |
| Wallets.Converted | src/data/wallet.rs:104-108 | only the amount changes, and converting within one currency changes nothing |
| Wallets.ConvertToCurrency | src/data/wallet.rs:101-118 | the currency becomes the target; every other field, the length and every non-amount field of each transaction are kept |
| Wallets.ConvertToOwnCurrency | src/data/wallet.rs:101-118 | converting into the wallet's own currency changes nothing |
| Wallets.ConvertToCurrencyNearExact | src/data/wallet.rs:101-118 | each converted amount is within the wallet currency's rounding step of the exact conversion |
| IdLists.FirstIndex | src/data/wallet.rs:77 | `position` gives the first index with the id, or none when no element has it |
| IdLists.Position | src/data/wallet.rs:77 | the loop computes `FirstIndex` |
| IdLists.AddOrUpdate | src/data/wallet.rs:76-82 | the in-place replace-or-push computes `Upserted` |
| IdLists.Retain | src/data/wallet.rs:72-74 | the loop keeps exactly the elements `Removed` keeps, in order |
| IdLists.Removed | src/data/mod.rs:51-53 | no element with the id survives, and the list does not grow |
| IdLists.RemovedConcat | src/data/mod.rs:51-53 | `retain` distributes over concatenation, so order is preserved |
| IdLists.UpsertedShape | src/data/mod.rs:55-61 | with a match, the same length with only that position replaced; without, the old list plus the new element at the end |
| IdLists.UpsertedFind | src/data/mod.rs:45-61 | after add-or-update the element is found under its id and other ids are unaffected |
| IdLists.RemovedFind | src/data/mod.rs:45-53 | after removal the id finds nothing and other ids are unaffected |
| IdLists.UpsertedElements | src/data/mod.rs:55-61 | the new element is present and nothing else is introduced |
| IdLists.RemovedElements | src/data/mod.rs:51-53 | removal introduces nothing |
| IdLists.RemovedKeeps | src/data/mod.rs:51-53 | every element with another id survives removal |
| Ids.IdCounter.constructor | src/data/transaction.rs:7 | the counter starts at 1 |
| Ids.IdCounter.FetchAdd | src/data/transaction.rs:42 | returns the current value and advances by one |
| Finances.Data.constructor | src/data/mod.rs:24-32 | no wallets, USD, period Month; the document is empty and not valid |
| Finances.Data.IsValid | src/data/mod.rs:36-39 | definition: at least one wallet, and every wallet valid |
| Finances.Data.IsEmpty | src/data/mod.rs:41-43 | definition: no wallets |
| Finances.Data.FindWalletById | src/data/mod.rs:45-49 | the first wallet with that id, or none exactly when no wallet has it |
| Finances.Data.RemoveWalletById | src/data/mod.rs:51-53 | the wallets are `retain`ed; currency and period stay; the id finds nothing; other ids are unaffected; validity survives while wallets remain |
| Finances.Data.AddOrUpdateWallet | src/data/mod.rs:55-61 | replace-or-append; currency and period stay; the wallet is found under its id; other ids are unaffected; a valid wallet keeps the document valid |
| Finances.Data.WalletsForPeriod | src/data/mod.rs:63-68 | the same number of wallets, in order; each is that wallet's `for_period` with the document's period, identical except for its transactions, whose count is kept |
| Finances.Data.TotalBalanceForPeriod | src/data/mod.rs:70-76 | the join-fold equals the balance of all converted, period-projected transactions taken together |
| Finances.JoinFoldFlattens | src/data/mod.rs:70-76 | folding `join` over wallet balances equals one balance over the concatenated transactions |
| Finances.TotalBalanceNet | src/data/mod.rs:70-76 | the total's net is the sum of all converted period amounts, and both buckets are ≥ 0 |
| Finances.EmptyTotalsZero | src/data/mod.rs:70-76 | an empty document totals zero |
| Metadata.CreateId | build/metadata.rs:28-31 | the id is the fixed prefix followed by the name with each '-' replaced by '_', and contains no '-' |
| Metadata.CreateResourcePath | build/metadata.rs:47-50 | "/" then the id, same length plus one, containing no '.' |
| Metadata.ResourcePathOfId | build/metadata.rs:28-50 | the resource path of a name's id is "/pt/tiago_marques/" and the rewritten name |
| Metadata.Capitalized | build/metadata.rs:36-38 | the first character is upper-cased (ASCII letters), the rest is kept |
| Metadata.Segments | build/metadata.rs:34-37 | the kept segments are non-empty and contain no '-' |
| Metadata.CreateTitle | build/metadata.rs:33-45 | definition: the non-empty '-'-separated segments, each capitalised, joined by single spaces |
| Metadata.CreateTitleHasNoDash | build/metadata.rs:33-45 | the title contains no '-' |
| Metadata.CreateTitleWords | build/metadata.rs:33-45 | splitting the title at spaces gives the capitalised non-empty segments, as many as there are |
| DataDirectories.FileName | src/context/data_directory.rs:93-98 | definition: "data.<app>.json" for attempt 0, "data.<count>.<app>.json" after |
| DataDirectories.BuildDataPath | src/context/data_directory.rs:93-100 | definition: the directory joined with `FileName` |
| DataDirectories.JoinPath | src/context/data_directory.rs:99 | the joined path ends with the file name |
| DataDirectories.BuildDataPathInjective | src/context/data_directory.rs:93-100 | different counts give different paths |
| DataDirectories.GenerateUniqueFilePath | src/context/data_directory.rs:64-80 | the first free path among counts 0..999 (all earlier ones taken); an error exactly when all 1000 are taken |
| DataDirectories.UniquePathIsFirstFree | src/context/data_directory.rs:64-80 | the path found is the smallest free count |
| DataDirectories.GenerateUniqueFilePathOrDefault | src/context/data_directory.rs:82-85 | the count-0 path when all are taken, otherwise the first free path, as `generate_unique_file_path` returns it |
| DataDirectories.CreateNewDataFile | src/context/data_directory.rs:87-91 | wraps the first free path, or fails exactly when all are taken |
| DataDirectories.FindMostRecentDataFile | src/context/data_directory.rs:46-62 | an error exactly when a modification time is unreadable; none exactly for no files; otherwise a file with the latest time, the first such one |
| DataDirectories.MostRecentIsUnique | src/context/data_directory.rs:54 | the strict comparison makes the chosen file unique |
| TransactionPage.SavedEndDate | src/pages/transaction/mod.rs:128-134 | one-time saves today; otherwise none exactly when the start is after the picker's end, else the picker's end |
| TransactionPage.GetData | src/pages/transaction/mod.rs:123-144 | fields are copied; an empty description becomes none; an unparsable amount becomes 0; the end date is `SavedEndDate` |
| TransactionPage.GetDataDatesValid | src/pages/transaction/mod.rs:128-134 | the saved dates are ordered exactly unless a one-time transaction starts after today |
| TransactionPage.UnparsedAmountInvalid | src/pages/transaction/mod.rs:138 | an unparsable amount makes the transaction invalid |
| TransactionPage.SaveEnabled | src/pages/transaction/mod.rs:169-177 | definition: Save is sensitive exactly for a valid form that differs from the stored transaction |
| TransactionPage.UnchangedCannotSave | src/pages/transaction/mod.rs:169-177 | a form equal to the stored transaction up to id never enables saving |
| TransactionPage.Conflicts | src/pages/transaction/mod.rs:254-269 | definition: another id, the same lower-cased name, and the same start date, or an existing one starting later while both repeat and the new one has no end or ends on or after that start |
| TransactionPage.HasConflict | src/pages/transaction/mod.rs:254 | definition: some transaction of the wallet conflicts |
| TransactionPage.ConflictsAsymmetric | src/pages/transaction/mod.rs:254-269 | an existing transaction starting earlier never conflicts; with different start dates a conflict holds one way only |
| TransactionPage.SameStartConflictsBothWays | src/pages/transaction/mod.rs:254-258 | same name up to case and same start, with different ids, conflict both ways |
| TransactionPage.Save | src/pages/transaction/mod.rs:241-284 | the id is assigned as `assign_global_id` does; saves exactly when no conflict; then upserts the transaction into the wallet and the wallet into the document, where it is found; otherwise the document is unchanged |

## Left out

- The GTK user interface: every page except the two rules modelled from the transaction page, the navigation history, widget state, and the remove-confirmation handler.
- `fetch_exchange_rates` and the lazily fetched rate table: network I/O. Rates are a parameter, one per currency. A missing rate is 0, as the fetch leaves it.
- Clock reads (`Local::now`, `Utc::now`): "now" and "today" are parameters. Time zones are not modelled.
- IEEE-754 arithmetic: amounts are exact reals, so NaN and infinity exist only as `NonFinite`. Sums, products and quotients do not round. `round` is exact half-away-from-zero.
- Formatting.Cents: `{:.2}` is stated only to within half a hundredth. How the standard library breaks ties on binary doubles is not modelled.
- Calendar: chrono's finite date range is not modelled. `checked_add_months` and day addition never overflow here, so `Cycles.Next` is some date for every repeating cycle.
- Text.Upper and Text.Lower: ASCII case mapping only. Rust's `to_uppercase`/`to_lowercase` apply full Unicode case mapping.
- Metadata.Capitalized: the same ASCII restriction applies to the title's first letters.
- serde and serde_json, and `src/context/data_file.rs` (load, save, remove, validity): file I/O. Only the date text and the end-not-before-start check of transaction deserialisation are modelled.
- Wallet deserialisation: serde. It only draws a fresh id from the wallet counter, as `Wallets.AssignGlobalId` does.
- `DataDirectory::list_valid`, `ensure_exists` and `from_user_data_dir`: directory reading and creation. The valid files are a parameter of `FindMostRecentDataFile`.
- Paths: `PathBuf::join` is modelled as string concatenation with a "/" separator, and `exists` as a predicate parameter.
- `APP_NAME` and `APP_ID` are build-time constants; `APP_NAME` is a parameter.
- The atomic counters: `Relaxed` ordering and concurrent use are not modelled. The counter is a sequential class. `usize` wrap-around after 2^64 ids is not modelled.
- `Display` impls, `icon_name`, and `as_long_str`/`as_symbol` beyond the tables: presentation only.
- `Context`'s save and reload on drop: I/O tied to destruction.
- Two behaviours of the code that a reader might not expect are modelled as written:
  - `convert_amount` normalises with the rule of the source currency (`self`), not the target's (src/data/currency.rs:128), so a JPY→USD conversion rounds to whole units.
  - The default `Data` period is Month (src/data/mod.rs:29), while `Period::default` is All.

## Findings

| source | as written | input that shows it | evidently intended | confidence | as-written member | corrected member |
|---|---|---|---|---|---|---|
| src/data/currency.rs:96-98 | the JPY arm formats only the symbol and the grouped digits; the "-" prefix computed at line 68 is dropped | `format_amount(JPY, -5.0)` gives "¥5", the same as for 5.0 | "-¥5": the sign is printed as in the other currencies' arm | not executed | Currencies.FormatAmountDropsYenSign | Currencies.FormatAmountSignedKeepsSign |
