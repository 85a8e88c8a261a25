# budget-manager core in Dafny

This project models the core of a small personal-budget program. The program reads
Chinese bank notifications such as

    2024年05月20日您尾号1234的卡在 Cafe 消费USD4.50元

and turns them into transaction records. It stores them in a SQLite table
`transactions (id, date, merchant, amount, category)`, skipping duplicates, and lets
the user give merchants a category. It then computes the sums and listings shown in
the window: the three newest rows, this month's spending, the spending and the rows
of the current billing cycle, and a per-merchant summary of the last 30 days. A
billing cycle starts on the 10th of a month.

Everything is a pure function:

- The table is a `Db`, a sequence of rows in rowid order plus the `AUTOINCREMENT`
  high-water mark. The type `Table` keeps the rowids positive and strictly
  increasing.
- Each SQL statement the core issues is a function over that sequence.
- `datetime.now()` becomes a parameter, either a `Date` or a `DateTime`.
- The answers of the category dialog become a parameter: one `Option<string>` per
  merchant offered.
- Every exception the modelled logic can raise is an `Err` of the `Results` module:
  - `float()` rejecting an amount gives `BadAmount`;
  - a name that is never imported gives `UndefinedName`;
  - date arithmetic stepping below 0001-01-01 gives `DateOutOfRange`.

The modules follow the program's structure:

| module | models |
|---|---|
| `Text` | `str.strip`, `str.replace`, SQLite's `lower()`, `LIKE 'p%'` and TEXT comparison, and zero-padded numbers |
| `Amount` | `float()` on a capture of `[0-9.]+` |
| `Scanner` | the pattern of `parse_transaction` and `re.findall`, matched as Python's backtracking engine does |
| `Parser` | `parse_transaction` |
| `Calendar` | dates, `timedelta` steps, `strftime`, `str(datetime)` and `get_date_of_last_tenth` |
| `Lists` | `DISTINCT`, keeping first occurrences |
| `Store` | `insert_transactions`, `process_input` and the category update of `categorize_transactions` |
| `Queries` | `get_recent_transactions`, `get_monthly_expenses`, `get_expense_since_last_tenth` and `list_all_since_last_tenth` |
| `Detail` | `list_expenses_in_detail` |
| `Scenarios` | concrete inputs, including those that exhibit the findings below |

Three points where the code behaves differently from what one might assume:

- The class `[0-9.]+` admits `1.2.3` and `.`, on which `float()` raises
  (utils.py:19). `Parser.ParseErr` and `Scenarios.RecordBadAmount` model that
  failure.
- The verb group captures only `消费` or `预授权`, so the check at utils.py:21-22
  never fires and `Parser.Record` never returns `UnrecognizedVerb`.
- Both branches at database.py:54-57 build the current month's 10th, so
  `list_all_since_last_tenth` always lists from the 10th of the current month. The
  code is modelled as written and corrected; see Findings.

## Model

| member | source | states |
|---|---|---|
| Text.Strip | utils.py:17 | `strip()` removes exactly the leading and trailing whitespace, using Python's `isspace` set. The result is the slice in between, and it neither starts nor ends with whitespace. |
| Text.Cmp | database.py:37 | SQLite's binary TEXT comparison is a three-way result that is 0 exactly when the strings are equal. |
| Text.Replace | utils.py:16 | `str.replace` with a one-character pattern: every occurrence is replaced, so the pattern character is absent from the result whenever the replacement does not contain it. |
| Text.ReplaceFrom | utils.py:16 | Every character of the result of `replace` comes from the input or from the replacement text. |
| Text.ReplaceConcat | utils.py:16 | `replace` works character by character: replacing in a concatenation is concatenating the replaced parts. |
| Text.Lower | database.py:80 | SQLite's built-in `lower()` keeps the length and folds only `A`-`Z`; every other character, `É` included, is kept as it is. |
| Text.LowerIdempotent | database.py:80-90 | A name already lowercased by `SELECT DISTINCT LOWER(merchant)` is its own `lower()`, so passing it back to `LOWER(merchant) = ?` is consistent. |
| Amount.ParseAmount | utils.py:19 | `float()` on a `[0-9.]+` capture succeeds exactly when there is at most one dot and at least one digit. The value is never negative, and a capture of plain digits reads as the number it spells. |
| Amount.ParseAmountWithDot | utils.py:19 | With one dot, the value is the integer digits plus the fraction digits divided by 10 to the power of their count. |
| Amount.ParseFormattedAmount | utils.py:19 | An amount written as zero-padded integer digits, a dot and fraction digits reads back as that exact decimal (a round trip). |
| Scanner.TailAtSpec | utils.py:11 | After the merchant, the rest of the pattern (a verb, `USD`, the amount, `元`) matches at a position with only one verb and only one amount end. `TailAt` finds them exactly when they exist. |
| Scanner.Lazy | utils.py:11 | A lazy `.+?` or `(.+?)` stops at the least position from which the rest succeeds, never crossing a newline. When no such position exists it reports none. |
| Scanner.Merchant | utils.py:11 | The merchant group after a `在` is the shortest non-empty, newline-free run after which the verb, `USD`, the amount and `元` follow. No shorter one works. |
| Scanner.Anchor | utils.py:11 | The gap `.+?` after the date ends at the first `在` that a merchant group can follow. No earlier `在` can. |
| Scanner.LeastMatch | utils.py:11 | Among all ways the pattern can match at a position, the chosen one has the shortest gap and, for that gap, the shortest merchant. |
| Scanner.MatchAt | utils.py:11 | A match at `p` is found exactly when the pattern can match at `p`. It is Python's backtracking choice, and it guarantees the date shape, the verb and an amount closed by `元`. |
| Scanner.Scan | utils.py:12 | The `findall` loop yields a leftmost, non-overlapping scan: the first match from the current position, then the scan resumed after its end. |
| Scanner.ScanUnique | utils.py:12 | That scan is unique: any list satisfying the leftmost, non-overlapping description equals the one `Scan` builds. |
| Scanner.ScanFacts | utils.py:12 | Every match the scan reports is the match found at its own start. The matches come in text order and none overlaps the next. |
| Scanner.FindAll | utils.py:12 | `re.findall` reports matches in left-to-right order, each the match at its start, none overlapping the next. |
| Scanner.FindAllShaped | utils.py:11-12 | Every match `findall` reports has the full shape the pattern demands. |
| Parser.GroupsOf | utils.py:11-12 | The groups of a match are a well-formed date, one of the two verbs, and an amount over `[0-9.]`. |
| Parser.FindAllGroups | utils.py:12 | There is one group tuple per match, in order, each one well formed. |
| Parser.NormaliseDateGroup | utils.py:16 | The chained `replace` calls turn `YYYY年MM月DD日` into `YYYY-MM-DD`: length 10, dashes at 4 and 7, the same digits elsewhere. |
| Parser.NormaliseDate | utils.py:16 | After the chained `replace` calls, no `年`, `月` or `日` is left, and every character of the result is a character of the input or a dash. |
| Parser.VerbUnchanged | utils.py:18 | `strip()` leaves both verbs unchanged. |
| Parser.Record | utils.py:16-30 | One loop iteration succeeds exactly when `float()` accepts the amount. Otherwise it raises that `ValueError`, never the verb error. On success, the record has the normalised date, the stripped merchant and the parsed amount. Its type is pre-authorization exactly for `预授权`, and its category is `""`. |
| Parser.CollectOk | utils.py:15-32 | The loop completes exactly when every iteration does, and then the `j`-th record is the `j`-th iteration's value. |
| Parser.CollectErr | utils.py:15-32 | When the loop fails, it fails with the error of the first failing iteration. |
| Parser.Parse | utils.py:5-32 | A successful parse returns one record per match. |
| Parser.ParseOk | utils.py:12-32 | `parse_transaction` succeeds exactly when every amount is valid. The result is then the records of the matches in text order. |
| Parser.ParseErr | utils.py:15-22 | A failed parse raises the `ValueError` of the first invalid amount and returns no partial list. |
| Parser.ParseWithoutMatch | utils.py:12-32 | Text in which the pattern matches nowhere parses to the empty list. |
| Calendar.PrevDay | utils.py:44 | `d - timedelta(days=1)` fails only on 0001-01-01, and otherwise gives an earlier valid date. |
| Calendar.PrevDayOrdinal | utils.py:44 | Stepping back one day lowers the proleptic Gregorian ordinal by exactly one. |
| Calendar.MinusDays | database.py:76 | `d - timedelta(days=n)` gives a valid date or `OverflowError`. |
| Calendar.MinusDaysOrdinal | database.py:76 | Subtracting `n` days succeeds exactly when the ordinal exceeds `n`, and then lowers it by `n`. |
| Calendar.FormatDateRoundTrip | utils.py:46-49 | `strftime('%Y-%m-%d')` yields a `YYYY-MM-DD` string that reads back to the same date. |
| Calendar.FormatDate | utils.py:46-49 | `strftime('%Y-%m-%d')` yields ten characters: dashes at 4 and 7, and digits everywhere else. |
| Calendar.FormatDateTime | database.py:81 | `str(datetime)`, the text sqlite3 binds, begins with the formatted date and a space. It is 19 characters long, or 26 when the microseconds are non-zero. |
| Calendar.FieldsRoundTrip | utils.py:46-49 | A `YYYY-MM-DD` string is the formatting of the numbers it spells. |
| Calendar.CmpFormatDate | database.py:37 | Formatted dates compare as strings exactly as the dates compare in time, so `date >= ?` is chronological. |
| Calendar.MonthPrefixMatches | database.py:23-24 | A `YYYY-MM-DD` string starts with `strftime('%Y-%m')` exactly when it is dated in that year and month. |
| Calendar.MonthPrefixTenth | database.py:51-57 | `current_month + '-10'` is the formatting of the 10th of that month. |
| Calendar.TenthOfPreviousMonth | utils.py:42-46 | The 10th of the month before `today`'s rolls January back to December of the previous year. It is earlier than `today`, and it fails only in January of year 1. |
| Calendar.CycleStart | utils.py:39-49 | From the 10th on, the cycle start is the 10th of this month; before it, the 10th of the previous month, with the year rollover. The result always has day 10 and is not after `today`. |
| Calendar.CycleStartIsLatestTenth | utils.py:39-49 | No 10th of a month lies strictly between the cycle start and `today`. |
| Calendar.CycleStartAsWritten | utils.py:40-49 | As written, every call before the 10th raises `NameError` for `timedelta`. From the 10th on it agrees with `CycleStart`. |
| Lists.Distinct | main.py:84 | `DISTINCT` keeps each value once and keeps exactly the values that occur. The values come in the order of their first occurrence: for `i < j` the first index of `r[i]` in the input is below that of `r[j]`. |
| Store.InsertOne | main.py:46-52 | The guarded `INSERT ... WHERE NOT EXISTS` leaves the table unchanged when the (date, merchant, amount) key is already stored. Otherwise it appends one row storing the record under an id above every earlier one. The stored keys grow by exactly the record's key, and unique keys stay unique. |
| Store.HasKey | main.py:49-51 | The `NOT EXISTS` subquery: some stored row has this date, merchant and amount, compared exactly. The `InsertOne` and `InsertAll` rows state how the insert loop changes it. |
| Store.InsertAll | main.py:45-52 | The insert loop never touches existing rows and never lowers the id mark. |
| Store.InsertAllNewRows | main.py:45-52 | Every row the loop adds stores one of the records, with its category, under an id above every id handed out before. |
| Store.Fresh | main.py:45-52 | The reference list of what the loop stores: the records, in order, whose key is in neither the table nor an earlier record. Each one is a record of the batch whose key the table lacks. |
| Store.FreshKeys | main.py:49-51 | A key is carried by a fresh record exactly when some record carries it and the table lacks it. No two fresh records share a key. |
| Store.InsertAllFresh | main.py:45-52 | The loop appends exactly one row per fresh record, and the `i`-th new row stores the `i`-th fresh record. |
| Store.InsertAllKeys | main.py:45-52 | After the loop, a key is stored exactly when it was stored before or some record carries it. |
| Store.InsertAllHolds | main.py:39-55 | After `insert_transactions`, every record's (date, merchant, amount) is in the table. |
| Store.InsertAllUnique | main.py:49-51 | The duplicate check keeps keys unique, including against records earlier in the same batch. |
| Store.InsertAllPresent | main.py:49-51 | Records whose keys are all stored change nothing. |
| Store.InsertAllIdempotent | main.py:45-52 | Inserting the same records twice gives the same table as inserting them once. |
| Store.ProcessInput | main.py:58-60 | `process_input` fails exactly when parsing fails, with a `ValueError` and before anything is written. Otherwise existing rows are kept and every parsed record's key is stored. |
| Store.ProcessInputIdempotent | main.py:58-60 | Processing the same text twice gives the same table as processing it once. |
| Store.Uncategorized | main.py:84 | The merchants of the rows whose category is `""` are exactly the merchants of some such row. |
| Store.PendingMerchants | main.py:84-85 | The merchants offered for a category are the distinct merchants of the rows whose category is `""`, each once. |
| Store.AnswerFor | main.py:89-90 | An accepted answer is never the empty string. |
| Store.SetCategory | main.py:91 | The `UPDATE` sets the category of every row whose merchant equals the name exactly, and leaves every other row as it was. |
| Store.Recategorize | main.py:91 | The update changes only categories, and keeps the rows and the id mark. |
| Store.ApplyAnswers | main.py:87-91 | The dialog loop changes only categories. |
| Store.ApplyAnswersLookup | main.py:87-91 | For distinct merchants, the sequential updates equal looking each row's merchant up among the accepted answers. |
| Store.Categorize | main.py:80-95 | `categorize_transactions` gives each row the accepted answer for its merchant if there is one, and otherwise keeps its category. Nothing else changes. |
| Store.CategorizePending | main.py:84-91 | Afterwards, a merchant still awaits a category exactly when it did before and its answer was not accepted. |
| Store.CategorizeKeepsKeys | main.py:91 | Categorizing keeps the keys unique. |
| Store.CategorizeUnanswered | main.py:89-91 | If every answer is cancelled or empty, the table stays exactly as it was. |
| Queries.Newest | database.py:13 | `ORDER BY id DESC LIMIT n` returns `min(n, rows)` rows. |
| Queries.NewestMembers | database.py:13 | Every row it returns is a row of the table. |
| Queries.NewestOrder | database.py:13 | Ids strictly decrease along the result, so the newest comes first. |
| Queries.NewestTop | database.py:13 | Every row left out has a lower id than every row returned. |
| Queries.RecentTransactions | database.py:9-16 | `get_recent_transactions` returns at most three tuples: those of the newest rows, newest first. |
| Queries.Holds | database.py:24-90 | The `WHERE` clauses: `date LIKE prefix` folding ASCII case on both sides, `date >= bound` as binary TEXT comparison, and `LOWER(merchant) = name AND date >= bound`. `LikeMonth`, `FromDay` and `HoldsMerchantCase` give each its meaning. |
| Queries.HoldsMerchantCase | database.py:90 | The clauses see a merchant only through `LOWER(merchant)`: names equal after `lower()` satisfy the same clauses, and a row's own lowercased name selects it from the bound on. |
| Queries.SelectMembers | database.py:24 | A row is selected exactly when it is in the table and satisfies the `WHERE` clause. |
| Queries.Select | database.py:24 | The `WHERE` filter returns table rows that satisfy the clause, never more rows than the table has. `Queries.SelectMembers` gives the converse. |
| Queries.SelectIncreasing | database.py:60 | The selection keeps the storage order. |
| Queries.NothingSelected | database.py:25 | When no row satisfies the clause, nothing is selected and `SUM(...) or 0` is 0. |
| Queries.Total | database.py:24-25 | `SUM(amount) or 0` is 0 over no rows, and it is never negative when no amount is. |
| Queries.TotalAfterInsert | database.py:24 | A guarded insert raises a sum by the new row's amount when the row is stored and satisfies the clause. Otherwise the sum is unchanged. |
| Queries.TotalIgnoresCategory | database.py:24 | Changing only categories changes no sum and no count. |
| Queries.LikeMonth | database.py:23-24 | `date LIKE 'YYYY-MM%'`, case-insensitive as SQLite makes it, holds on a `YYYY-MM-DD` date exactly in that month. |
| Queries.FromDay | database.py:37 | `date >= 'YYYY-MM-DD'` holds exactly on that day and later. |
| Queries.MonthlyExpenses | database.py:20-27 | `get_monthly_expenses` is 0 when no row is dated in the month. |
| Queries.MonthlyExpensesRows | database.py:23-24 | The month sum takes exactly the rows of today's year and month. |
| Queries.MonthlyExpensesAfterInsert | database.py:24-25 | Storing a record of this month raises the month sum by its amount. A duplicate, or a record of another month, leaves the sum unchanged. |
| Queries.MonthlyExpensesAfterCategorize | database.py:24 | Categorizing does not change the month sum. |
| Queries.RowsFromMeaning | database.py:37 | The rows taken from a day on are exactly the rows dated that day or later, in storage order. |
| Queries.ExpenseSinceLastTenth | database.py:30-42 | The cycle sum fails only when the cycle start cannot be computed. It is 0 when no row is dated from the start on. |
| Queries.ExpenseSinceLastTenthAsWritten | database.py:35 | As written, the `NameError` of the cycle start reaches the caller before the 10th. From the 10th on the result is the corrected one. |
| Queries.ListAllSinceLastTenthAsWritten | database.py:50-67 | As written, the listing always starts at the 10th of the current month, whatever the day. It returns exactly the rows from then on, in storage order. |
| Queries.ListAllAsWrittenMisses | database.py:54-57 | Before the 10th, a row of the current cycle dated before the 10th of this month is in the corrected listing and missing from the one as written. |
| Queries.ListAllSinceLastTenth | database.py:45-67 | With the cutoff at the cycle start, the listing is the rows of the current billing cycle. From the 10th on it agrees with the code as written. The docstring and the comments at lines 46, 50 and 59 describe the code as written. The cycle start is inferred from the function's name, from the dead `if` at line 54, and from `get_expense_since_last_tenth`, which uses it. |
| Detail.DetailCutoff | database.py:75-76 | `now - timedelta(days=30)` fails exactly when it would fall before 0001-01-01. |
| Detail.AtLeastStamp | database.py:81 | A `YYYY-MM-DD` date is `>=` the `str()` of a datetime on day `d` exactly when it is a later day than `d`. |
| Detail.DetailWindow | database.py:76-82 | Against the bound datetime, a `YYYY-MM-DD` row is in the window exactly when it is dated after the day 30 days ago. A row dated on that day is excluded. |
| Detail.InsertByTotal | database.py:98 | One insertion step of the sort is a permutation that adds exactly the inserted entry. |
| Detail.SortByTotal | database.py:98 | The sort is a permutation of the entries. |
| Detail.InsertByTotalSorted | database.py:98 | Inserting into a list sorted by total, largest first, keeps it sorted. |
| Detail.InsertByTotalDistinct | database.py:98 | Inserting an entry for a new merchant keeps the merchants distinct. |
| Detail.SortByTotalSpec | database.py:98 | `sort(key=total, reverse=True)` orders by total, largest first, and keeps distinct merchants distinct. |
| Detail.WindowMerchants | database.py:79-85 | The merchant set is repetition-free. |
| Detail.WindowMerchantsFromRow | database.py:79-85 | A row in the window puts its lowercased merchant in the set. |
| Detail.WindowMerchantsHaveRow | database.py:79-85 | Every merchant in the set has a row in the window. |
| Detail.Entry | database.py:88-94 | The per-merchant `SELECT SUM(amount), COUNT(*)`: the entry names the merchant, counts no more rows than the table holds, sums to 0 over no rows and is non-negative over non-negative amounts. `MerchantSummaryEntries` gives the sum and count exactly. |
| Detail.EntryCounts | database.py:88-94 | The entry of a merchant in the set counts at least one transaction. |
| Detail.EntriesDistinct | database.py:85-95 | There is one entry per merchant of the set. |
| Detail.MerchantSummaryOrder | database.py:97-98 | The summary is sorted by total, largest first, with each merchant once. |
| Detail.MerchantSummary | database.py:85-98 | The sorted `merchant_sums` has one entry per merchant of the window. Each entry is that merchant's `SUM` and `COUNT` over the window. |
| Detail.MerchantSummaryEntries | database.py:87-95 | Each entry's total and count are the sum and number of that lowercased merchant's rows in the window, and the count is at least 1. |
| Detail.MerchantSummaryCovers | database.py:79-95 | A lowercased merchant has an entry exactly when one of its rows is in the window. |
| Detail.ListExpensesInDetailAsWritten | database.py:70-99 | As written, the function returns `None` whenever it does not raise. It raises only when the 30-day step underflows. |
| Detail.ListExpensesInDetail | database.py:70-98 | Returning the summary it builds, the function gives the summary of the 30-day window, failing exactly when the cutoff does. |
| Scenarios.CycleStartExamples | utils.py:39-49 | The cycle starts on 2023-12-10 for 2024-01-05, on 2024-01-10 for 2024-01-15, on 2024-03-10 for 2024-03-10, and on 2024-02-10 for 2024-03-09. |
| Scenarios.CycleStartAsWrittenFails | utils.py:44 | As written, 2024-01-05 raises `NameError`. The corrected version gives 2023-12-10. |
| Scenarios.RecordExample | utils.py:11-30 | The groups `2024年05月20日`, ` Cafe `, `消费` and `4.50` build the record (2024-05-20, Cafe, 4.5, consumption, ""). |
| Scenarios.RecordBadAmount | utils.py:19 | The amount `1.2.3` matches the pattern, and the iteration raises `ValueError`. |
| Scenarios.LowerAsciiOnly | database.py:80-90 | `CAFE` and `cafe` lowercase to one merchant of the detail listing, while `É` and `é` stay two. |
| Scenarios.SoleMatch | utils.py:11-12 | When a match at `p` uses the only `在`, the only verb character and the only `元` of the text, `pattern.match` at `p` finds exactly that match. |
| Scenarios.StarbucksMatchAt | utils.py:11-12 | In `2024年03月15日您尾号1234的卡在Starbucks消费USD12.50元`, the pattern matches at 0 with `在` at 20, the verb at 30 and the amount in positions 35-39. |
| Scenarios.StarbucksFindAll | utils.py:12 | `re.findall` reports that match and nothing else: no later position starts a match. |
| Scenarios.StarbucksGroups | utils.py:12 | Its groups are `2024年03月15日`, `Starbucks`, `消费` and `12.50`. |
| Scenarios.StarbucksRecord | utils.py:15-30 | Those groups build the record (2024-03-15, Starbucks, 12.5, consumption, ""). |
| Scenarios.ParseSingle | utils.py:12-32 | Text with exactly one match parses to the record of that match. |
| Scenarios.ParseExample | utils.py:5-32 | `parse_transaction` on the whole Starbucks notification returns that one record. |
| Scenarios.ListAllAsWrittenExample | database.py:54-57 | On 2024-01-05, a row dated 2023-12-20 belongs to the cycle starting 2023-12-10, yet the listing as written, starting 2024-01-10, misses it. |
| Scenarios.DetailAsWrittenExample | database.py:97-99 | On 2024-01-05 the function as written returns `None`. |

## Left out

- The tkinter window, dialogs, `load_file`, `manual_input`, `update_display`, `toggle_currency`, the budget bar and the change polling: they are user interface and timer glue, not logic.
- rate.py, the exchange-rate table, currency conversion and `round(...)` for display: these are network I/O and float formatting, and the core keeps amounts in one unit.
- Opening and closing connections, `commit`, `CREATE TABLE` and the `./data` directory: the table is an in-memory value, and each statement takes effect when it runs.
- Errors raised by sqlite3 itself, such as a locked database or a missing table: the model's statements always succeed, so no `cursor.execute` call fails.
- `datetime.now()` and the dialog's answers are parameters, not calls.
- Amounts are exact decimals (`real`), not binary floats. The rounding of `float()` and of SQLite's `SUM` is not modelled.
- `\d` is modelled as ASCII digits. Python's `\d` on `str` also matches other Unicode decimal digits.
- Years below 1000 are printed with four zero-padded digits. What the platform's `strftime('%Y')` prints for them varies.
- Dates stored in the table are arbitrary strings. The lemmas that give a comparison its calendar meaning require the `YYYY-MM-DD` shape, and they do not check that the date exists.
- The parsed `type` field has no column in the table, and the insert drops it. The `DEFAULT 'None'` of `category` is never used, because the insert always supplies a category.
- `WHERE category = ""` is read as the empty string. SQLite accepts a double-quoted word as a string only when no column has that name, which holds here.
- The order in which Python iterates the merchant set and `SELECT DISTINCT` returns its rows is not specified. The model uses first-seen order, so the order of entries with equal totals is first-seen order too.
- Detail.SortByTotalSpec: the stability of Python's sort is not stated, only the order by total and the permutation.
- The docstring of `get_recent_transactions` says five rows. The query has `LIMIT 3`, and the model follows the query.
- Scanner.MatchAt: the regex engine itself is not modelled. The scanner follows the backtracking order this one pattern induces, and each lazy group's choice is proved least.

## Findings

| source | as written | input that shows it | evidently intended | confidence | as-written member | corrected member |
|---|---|---|---|---|---|---|
| utils.py:44 | `timedelta` is used, but utils.py imports only `datetime`, so the `day < 10` branch raises `NameError` | today = 2024-01-05 | the 10th of the previous month (2023-12-10), as the comments describe | high, not executed | Calendar.CycleStartAsWritten, Scenarios.CycleStartAsWrittenFails | Calendar.CycleStart |
| database.py:54-57 | both branches build `current_month + '-10'`, so before the 10th the listing starts at a future date | today = 2024-01-05, a row dated 2023-12-20 | the rows since the cycle start, the 10th of the previous month | medium, not executed | Queries.ListAllSinceLastTenthAsWritten, Queries.ListAllAsWrittenMisses, Scenarios.ListAllAsWrittenExample | Queries.ListAllSinceLastTenth |
| database.py:97-99 | the summary is built and sorted but never returned, so the function returns `None` | any date from 0001-01-31 on, for example 2024-01-05 12:00 | return the sorted `merchant_sums` | high, not executed | Detail.ListExpensesInDetailAsWritten, Scenarios.DetailAsWrittenExample | Detail.ListExpensesInDetail |
