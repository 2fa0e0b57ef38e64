# Parking reimbursement app: a verified model of its record logic

The app lets church members enter parking records: date, location, name, position, bank account,
duration and hourly rate. The fee is the duration times the rate. Staff can query the records,
see the totals per person and account, export them as CSV, and delete entries. The app is one
React file, `src/App.js`. Its deterministic logic sits inside event handlers and effects, and this
project models that logic in Dafny:

- **Entry form.**
  - `EntrySubmit`: the checks `handleSubmit` makes, in their order; the record it composes; and
    how an `accountInfo` string (`bank/account`) is split back into the bank fields when a
    suggestion is picked.
  - `Suggestions`: name and account autocomplete. Each filters the records, drops repeats and
    caps the list at five.
  - `LatestRecords`: the one-record-per-name list behind the autocomplete. It is built by a loop
    over all records and updated after each save.
- **Query page.**
  - `QueryResults`: the result ordering (name ascending, then the later parking date first), the
    summary `handleSearch` computes, and the recomputation after `confirmDelete`.
  - `FeeTotals`: the fee totals per `name | accountInfo` key and the grand total. Both are folds,
    and the loops are proved against their specification functions.
  - `TopStats`: the most used parking locations (`getTopParkingLocationsHelper`) and the largest
    fee totals (`getTopParkersByFee`).
  - `CsvExport`: `escapeCsvCell` and the CSV document `downloadExcel` builds. A reader of one CSV
    record, written from section 2 of RFC 4180, is the parser the escaping is checked against:
    every escaped row reads back as the texts of its cells.
- **Shared modules.** `Strings`, `Lists` and `Records` hold the JavaScript string and array
  operations the code relies on, and the record type.

Modelling choices:

- The objects used as accumulators (`acc[key]`, `latestUserRecords[name]`) are insertion-ordered
  association lists. `Object.values` and `Object.entries` keep insertion order, and that order
  decides ties in the later sorts. The lists hold own properties only. A lookup of a name that
  no entry has, but that `Object.prototype` provides (`constructor`, `toString`, `__proto__`, …),
  finds the inherited member instead. `LatestRecords` models what follows from that.
- `Array.prototype.sort` is a stable sort, so it is modelled by a stable insertion sort over the
  comparator's "strictly before" relation.
- Dates are integers: `CalendarDate(text, millis)` for `parkingDate`. `createdAt` is either absent,
  a store timestamp, or a plain `Date`.

## Model

| member | source | states |
|---|---|---|
| FeeTotals.ComputeNameAccountTotals | src/App.js:701-709 | The reduce builds exactly the association list of the fold `Tally` over the fetched records. |
| FeeTotals.ComputeTotalFee | src/App.js:711-713 | The loop's total is the sum of all fees, a missing fee counting as 0. |
| FeeTotals.TallyTotals | src/App.js:701-713 | One group per key. Each group's total is the sum of the fees of exactly the records with that key. The group totals add up to the grand total. |
| FeeTotals.TallyGroups | src/App.js:701-708 | Every record, including one without a fee, has a group. Every group carries the name and account of a record with its key. |
| FeeTotals.AddRecordShape | src/App.js:702-707 | One record keeps the keys distinct and raises the sum of the group totals by its fee. |
| FeeTotals.AddRecordTotalOf | src/App.js:702-707 | One record raises its own group's total by its fee and leaves every other group's total unchanged. |
| FeeTotals.SumPermutation | src/App.js:711-713 | A sum of fees does not depend on the order of the records. |
| FeeTotals.SumAppend | src/App.js:712 | The sum over two lists placed one after the other is the sum of their sums. |
| FeeTotals.GroupKeyInjective | src/App.js:702 | The key `name | account` determines name and account when the name holds no `|`. |
| FeeTotals.FindGroup | src/App.js:703 | The lookup `acc[key]` finds a group with that key, or reports -1 exactly when there is none. |
| TopStats.GetTopParkingLocations | src/App.js:481-492 | The counting loop and the text it returns agree with `TopLocationsLabel`. The text is `데이터 없음` exactly for no records. |
| TopStats.LocationCountsSpec | src/App.js:483-486 | The counting object has one entry per location. Each count equals the number of records at that location and is positive. |
| TopStats.CountRecordStep | src/App.js:484-485 | Counting one record raises its location's count by one and keeps one entry per location. |
| TopStats.LocationEntries | src/App.js:483-487 | Every entry's count is that location's number of records. Every record's location has an entry. |
| TopStats.SortedCountsSpec | src/App.js:487-488 | The sorted entries are the counted entries in non-increasing count order. |
| TopStats.TopLocationEntriesSpec | src/App.js:487-489 | It reports min(count, locations) entries, in non-increasing order, each with its true positive count, no location twice. No unreported location has more records than the last one reported. The first entry has the maximum count. |
| TopStats.TopLocationsLabelSpec | src/App.js:482-491 | The label is `데이터 없음` exactly for no records. With count 1 it is `<location> (<n>건)` for the top entry. |
| TopStats.FindLocation | src/App.js:484 | Finds the first entry for a location, or -1 exactly when there is none. |
| TopStats.TopParkersByFeeSpec | src/App.js:494-497 | min(n, groups) groups, largest total first, drawn from the groups without repetition. No group left out has a larger total than the last one reported. |
| TopStats.TopParkersLabelSpec | src/App.js:494-499 | The text is empty exactly when no group is asked for or there is none. Otherwise it starts with the `name (amount)` entry of a group with the largest total. |
| QueryResults.ResultOrderStrict | src/App.js:694-698 | The comparator is a strict order, which the sort relies on. |
| QueryResults.SortResultsSpec | src/App.js:694-698 | The results are a permutation of the fetched records, names ascending, and records of equal name in descending parking date. |
| QueryResults.Search | src/App.js:694-721 | The summary holds the sorted results, the totals, the grand total and both top-location texts. The grand total equals the sum of the group totals. Each record's group total is the sum of that group's fees. The period text is `데이터 없음` exactly when nothing was fetched. |
| QueryResults.IndividualTop | src/App.js:716-721 | Empty without a searched name. Otherwise it is `데이터 없음` exactly when no record has the trimmed name. |
| QueryResults.ConfirmDelete | src/App.js:739-767 | No item selected, or no connection, is refused. Otherwise the one-pass loop gives exactly the summary recomputed from scratch over the filtered results, with grand total = sum of group totals. |
| QueryResults.DeleteRecompute | src/App.js:748-767 | The kept results are exactly the records with another id. The grand total and each group's total drop by exactly the fees of the removed records. |
| QueryResults.DeleteOne | src/App.js:748-762 | Deleting the only record with an id leaves the others in order. Only that record's group changes, by its fee. The grand total drops by its fee. Sorted results stay sorted. |
| QueryResults.Filter | src/App.js:748 | The filter keeps only records meeting the criterion and never grows the list. |
| QueryResults.FilterMembers | src/App.js:748 | A record is kept exactly when it is in the list and meets the criterion. |
| QueryResults.FilterAppend | src/App.js:748 | Filtering distributes over concatenation, so order is preserved. |
| QueryResults.FilterSorted | src/App.js:748-749 | Filtering a sorted list gives a sorted list. |
| QueryResults.SumFilterSplit | src/App.js:748-760 | The sum over all records is the sum over the kept ones plus the sum over the removed ones. |
| CsvExport.EscapeCsvCell | src/App.js:606-613 | `null` gives "". A text without `,`, `"`, CR or LF is unchanged. The result is wrapped in quotes exactly when the cell needs quoting, and is empty exactly for empty text. |
| CsvExport.FieldRoundTrip | src/App.js:606-613 | An escaped cell followed by a comma or the end of the line reads back as the cell's text. |
| CsvExport.QuotedRoundTrip | src/App.js:610 | Doubling the quotes and closing the field is undone by reading a quoted field. |
| CsvExport.UnquotedRoundTrip | src/App.js:612 | A text that needs no quoting reads back unchanged up to the next separator. |
| CsvExport.RowRoundTrip | src/App.js:623-627 | A row of escaped cells joined by commas reads back as the list of the cells' texts. |
| CsvExport.RecordRowReadsBack | src/App.js:621-628 | Each record's row reads back as its eight texts in header order, name and account included. |
| CsvExport.GroupRowReadsBack | src/App.js:639-641 | Each group row reads back as name, account and total. |
| CsvExport.GroupOrderStrict | src/App.js:634-638 | The totals comparator is a strict order. |
| CsvExport.SortGroupsSpec | src/App.js:634-638 | The totals section lists every group once, by name and then by account, both ascending. |
| CsvExport.DownloadExcel | src/App.js:615-644 | No document for no results. Otherwise the text built row by row equals `CsvDocument`: BOM, header, record lines, blank line, total line, and the totals section when there are groups. |
| CsvExport.AppendLines | src/App.js:622-629 | The `+=` loop appends exactly one line per item, in order. |
| CsvExport.LinesAppend | src/App.js:622-629 | The lines of two lists placed one after the other are the lines of each list, in order. |
| CsvExport.RecordCells | src/App.js:623-626 | A record row has one cell per header. |
| LatestRecords.LoadLatestUserRecords | src/App.js:208-215 | Over records read from the store, none with a plain `Date` as `createdAt`, the loop computes the fold `LatestPerName` and keeps one record per name. A name that is an `Object.prototype` member finds the inherited member, so its record is never stored. |
| LatestRecords.LatestPerNameSpec | src/App.js:208-214 | At most one record per name. An input name is present exactly when it is not an `Object.prototype` member such as `constructor` or `__proto__`. Each kept record has the greatest effective time for its name, the first seen winning a tie. |
| LatestRecords.StoredNotInherited | src/App.js:210-211 | A list kept by the loop never holds a record under an `Object.prototype` member name. |
| LatestRecords.LatestPerNameOrder | src/App.js:208-214 | The names come out in the order each was first seen: the de-duplicated list of the input names that are not `Object.prototype` members. |
| LatestRecords.KeptIndexSpec | src/App.js:209-212 | A name has a kept record exactly when some record has that name and the name is not an `Object.prototype` member, and the kept one is the first latest. |
| LatestRecords.KeepLatestStep | src/App.js:209-213 | One step of the loop keeps the invariant: distinct names, each entry the kept record for its name, all names present. |
| LatestRecords.EffectiveTimeAsWritten | src/App.js:357 | `createdAt?.toDate()` yields the effective time for a store timestamp or an absent value, and throws on a plain Date. |
| LatestRecords.AfterSaveIsIncremental | src/App.js:353-361 | With the time comparison as intended, the update after a save equals re-running the initial loop with the saved record appended. A saved record named after an `Object.prototype` member is not stored. Names stay distinct. |
| LatestRecords.RebuildDistinct | src/App.js:355 | Rebuilding the object from a list with distinct names gives back the same list. |
| LatestRecords.AfterSaveAgrees | src/App.js:355-360 | When no kept record is an in-session copy, the update as written equals the intended one. |
| LatestRecords.SecondSaveThrows | src/App.js:353-357 | A second save under the same name in one session makes the update as written throw. The intended update keeps the newer copy. |
| LatestRecords.SavedCopy | src/App.js:353 | The in-session copy keeps the name, and its effective time is the save instant. |
| LatestRecords.FindName | src/App.js:210 | The lookup by name finds an entry with that name, or -1 exactly when there is none. |
| Suggestions.NameSuggestionsSpec | src/App.js:226-237 | Shown exactly when something is typed. It holds at most five names, none twice, each the name of a record that matches. A record matches when its name contains the typed text, both lower-cased. When fewer than five are shown, every matching record's name is in the list. |
| Suggestions.NameSuggestionsOrder | src/App.js:229-233 | The shown names are ordered by their first match in record order, and each first matches before every matching name left out, so they are the first five distinct matching names. |
| Suggestions.NameSuggestions | src/App.js:226-237 | Hidden exactly when nothing is typed. Otherwise at most five names, none twice. |
| Suggestions.MatchingNames | src/App.js:230-232 | A name is listed exactly when some record with that name matches. |
| Suggestions.AccountSuggestionsSpec | src/App.js:261-282 | The field is the typed text without hyphens. The list is shown exactly when the field is non-empty. It holds at most five `accountInfo` values, none twice, each from a record whose account digits contain the field. When fewer than five are shown, no matching record's value is missing. |
| Suggestions.AccountSuggestionsOrder | src/App.js:267-277 | The shown accounts are ordered by their first match in record order, and each first matches before every matching account left out. |
| Suggestions.AccountSuggestions | src/App.js:261-282 | The field holds no hyphen. The list is hidden exactly when the field is empty, and otherwise holds at most five values, none twice. |
| Suggestions.MatchingAccounts | src/App.js:267-275 | An `accountInfo` is listed exactly when some record with it matches. |
| Suggestions.AccountDigits | src/App.js:269-271 | The digits part of an account has no hyphen. |
| Suggestions.AccountDigitsOfComposed | src/App.js:269-271 | The digits part of a composed `bank/account` is the account without hyphens. |
| Suggestions.ShownPrefix | src/App.js:233-234 | `filter(indexOf) … slice(0, n)` gives the first n distinct values in order of first occurrence, each before every value left out, all of them when fewer than n. |
| EntrySubmit.SubmitAccepts | src/App.js:309-336 | A record is produced exactly when every check passes. It then carries account `bank/trimmed account` and the trimmed name. Its duration and rate are positive, and its fee is their product. An unparsable rate is 3000. |
| EntrySubmit.Submit | src/App.js:309-336 | A produced record has a positive duration and rate, its fee is their product, and it is marked custom exactly when the custom duration was chosen. |
| EntrySubmit.SubmitRefuses | src/App.js:311-329 | Each refusal names the first failing check, in the order: connection, duration, rate, "other" bank name, account number. |
| EntrySubmit.FeePositive | src/App.js:315-335 | Every produced record carries a positive fee. |
| EntrySubmit.AccountInfoSplits | src/App.js:330 | Splitting the composed `accountInfo` on `/` gives back bank and trimmed account when neither holds `/`. |
| EntrySubmit.FillFromAccountInfo | src/App.js:286-294 | The text before the first `/` is selected when it is a listed bank, with no typed name. Otherwise "other" is selected and the text becomes the typed name. The account number is the hyphen-free digits part that the suggestions match on, or empty when there is none. No other field changes. |
| EntrySubmit.BankFieldsRestore | src/App.js:287-293 | Showing a stored bank name in the bank fields and reading it back gives the same name. |
| EntrySubmit.FillRestoresBank | src/App.js:286-294 | Picking the `accountInfo` of a record submitted from a form restores that form's bank and its account number without hyphens. |
| EntrySubmit.ResubmitSame | src/App.js:286-336 | Filling the bank and account-number fields of a form from the `accountInfo` of the record it produced, and submitting again, stores the same record. The name and position fill of the click is not covered. |
| EntrySubmit.SameStoredFields | src/App.js:323-336 | Forms that show the same bank and trimmed account, and otherwise agree, store the same record. |
| Lists.Dedup | src/App.js:233 | The `indexOf` filter leaves no repeats, loses no value and adds none. It keeps the values in the order of their first occurrence. |
| Lists.FirstIndex | src/App.js:233 | `indexOf` of a present value is a position holding it, and no earlier position holds it. |
| Lists.Take | src/App.js:234 | `slice(0, n)` is the first min(n, length) elements. |
| Lists.SortBySorted | src/App.js:694-698 | The stable sort orders by any strict order and permutes its input. |
| Lists.SortByOfSorted | src/App.js:694-698 | Sorting an already ordered list leaves it unchanged (stability). |
| Lists.DistinctPermutation | src/App.js:487 | A permutation of a list without repeats has no repeats. |
| Strings.Trim | src/App.js:323-330 | `trim()` is the slice of the text between a blank prefix and a blank suffix. It is empty exactly for a blank text. Otherwise it neither starts nor ends with white space. |
| Strings.TrimIdempotent | src/App.js:323 | Trimming twice is trimming once. |
| Strings.SplitJoinTwo | src/App.js:286 | `(a + "/" + b).split("/")` is `[a, b]` when neither holds `/`. |
| Strings.ToLowerCase | src/App.js:231 | `toLowerCase()` keeps the length and lower-cases each character. |
| Strings.RemoveAll | src/App.js:263 | `replace(/-/g, '')` leaves no hyphen and keeps every other character as often as it occurs. A hyphen-free text is unchanged. |
| Strings.RemoveAllAppend | src/App.js:263 | Removing hyphens distributes over concatenation, so the kept characters stay in order. |
| Strings.StrLessTotal | src/App.js:695 | The order standing in for `localeCompare` is total on distinct strings. |
| Strings.StrLessTransitive | src/App.js:695 | That order is transitive. |

## Left out

- Firebase setup, sign-in and every store call (`getDocs`, `addDoc`, `deleteDoc`) are not modelled.
  - `Search` starts from the fetched records.
  - `ConfirmDelete` starts after a successful delete.
  - `Submit` stops where the record would be written.
  - When one of these calls fails, the source calls `setDbError` (src/App.js:218, 366, 728, 776), and the app then shows only an error screen (src/App.js:110-111). These paths are not modelled.
- The date, location and name filters of the query are `where` clauses run by the store. They are not modelled.
- The connection check at the start of `handleSearch` (src/App.js:660-662) is not modelled. `Search` models what follows a successful fetch.
- The Gemini summary, clipboard copying, and the Blob download of the CSV text are not modelled. The text itself is.
- JSX rendering, React state wiring, message texts and the form reset after a save (src/App.js:340-351) are not modelled. src/LoginPage.js is not part of this model.
- `handleNameSuggestionClick` (src/App.js:241-259) is not modelled: it looks up a record and fills position and bank fields. Only its bank-field split, which is shared with the account suggestion click, is modelled, as `FillFromAccountInfo`. The record lookup and the position and name fill of the account suggestion click are left out too.
- The `appId` and `userId` fields of a stored record are not modelled.
- Strings.StrLess: `localeCompare(..., 'ko-KR')` is modelled as code-point order, a strict total order. Korean collation is a library table. The bank list's display order, sorted by it, is not modelled either; only membership in the list is used.
- TopStats.FormatCurrency: `Intl.NumberFormat('ko-KR')` is modelled as comma grouping every three digits. Other formatting rules of the library are not modelled.
- EntrySubmit.DurationHours: durations, rates and fees are integers. A fractional custom duration and floating-point products are not modelled. `parseFloat` is given as the parsed value beside the text (None for NaN).
- Strings.ToLowerCase: only ASCII letters are lower-cased. Other Unicode case mappings are not modelled.
- TopStats.LocationCountsSpec: a location named after an `Object.prototype` member, such as `toString`, is counted from zero here. In the source, `acc[location] || 0` finds the inherited member, and adding 1 to it gives a string. The model does not capture that.
- `Object` key order for integer-like keys, which JavaScript lists first, is not modelled. Keys are names, accounts and locations, kept in insertion order.
- `new Date(...)` parsing is not modelled: dates are given as instants.
- FeeTotals.GroupKeyInjective: the group key is modelled as written. Two pairs whose name holds `" | "` can share a key; `GroupKeyCollision` exhibits one. Injectivity is proved only for names without `|`.
- EntrySubmit.ResubmitSame: the account suggestion click also sets the name and position from the first of all latest records with that `accountInfo` (src/App.js:297-301). The lemma leaves the form's name and position as they were, so it does not cover two people whose latest records share an `accountInfo`, where the source fills in the other person's name.
- EntrySubmit.FillRestoresBank: a bank typed as the text `기타` itself reads back as the "other" entry with nothing typed, so the lemma excludes it.

## Findings

| source | as written | input that shows it | evidently intended | confidence | as-written member | corrected member |
|---|---|---|---|---|---|---|
| src/App.js:353-357 | The saved record's in-session copy gets `createdAt: new Date()`. The next update reads the kept entry's time with `createdAt?.toDate()`, which a plain `Date` does not have. | Two saves under the same name in one session. The second update calls `toDate` on the first copy and throws a TypeError. The throw happens inside the `setAllUserRecords` updater, which React runs while rendering, so it plausibly surfaces as an uncaught render error. | Compare the kept entry's time whatever form its `createdAt` has, so the newer copy replaces the older one. | not executed | LatestRecords.SecondSaveThrows | LatestRecords.AfterSaveIsIncremental |
