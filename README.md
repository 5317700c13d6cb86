# Ledger recording engine, modelled in Dafny

This project models the part of an expense bot that writes expenses into a
spreadsheet ledger. The ledger has one tab per month, titled `MM/YYYY`; row 0
holds the category headers, day `d` is written in row `d + 1`, and each column
after the first is a spending category. The model covers:

- **Month resolver** (`month_resolver.dfy`): `getSheetTitle`, which maps a
  `DD/MM/YYYY` date, or the clock's month, to a tab title, and the day/row check
  of `recordExpense`.
- **Cell merge** (`cell_merge.dfy`): the three-way rule by which one ledger cell
  absorbs one more amount and its description.
- **Category directory** (`category_directory.dfy`): `getCategories`' filter
  over the header row, and the category-name-to-column map `recordExpense`
  builds from it.
- **Batch recorder** (`batch_recorder.dfy`): `recordExpense` as a function on
  values. It covers the date pass, grouping by tab, column resolution, the
  loaded rectangle, the merge of every cell, and the outcome of a whole batch
  (`{recorded, errors}` or a thrown error), with the tabs afterwards. Its loops
  are methods, each proved equal to the function that specifies it.
- **Sheets** (`sheets.dfy`): the worksheet and document objects as classes.
  A worksheet's cells are loaded, edited in place and saved. `RecordExpense`
  is the imperative procedure, proved to give exactly the answer and the
  workbook that `Record` specifies.
- **Category cache** (`category_cache.dfy`): `getCachedCategories`, the
  one-hour cache of the category list, as a class with its two variables. It
  is specified by a pure state transition.
- **Text** (`text.dfy`): the JavaScript built-ins the code depends on, with
  their semantics on strings of Unicode characters (see "## Left out" for
  UTF-16). These are `split` on one character (empty pieces are
  kept), `join`, `padStart`, the rendering of integers in template literals,
  and `parseInt(s, 10)`.

Where the code and its design description disagree, the model follows the
code:

- Day `d` goes to row `d + 1`, so `"09/02/2025"` goes to row 10. The design
  description's example says row 11.
- The batch throws only when no record has a valid date and at least one date
  error exists. A batch whose records all name unknown categories returns
  `{recorded: [], errors}` (`BatchRecorder.UnknownCategoriesRecordNothing`).
  It does not throw, although the design description says it should.
- A month with no tab throws out of the whole batch. Groups handled before it
  have already been saved, and nothing rolls them back
  (`BatchRecorder.RecordThrowMessage`, `BatchRecorder.RecordThrowKeepsEarlierGroups`).
- Groups are handled in order of first appearance. A title always contains
  `/`, so it is never an integer-like key that `Object.entries` would list
  first.
- Day 31 is accepted in every month (`MonthResolver.ThirtyFirstAccepted`).
- The category cache is not keyed by month. Until the hour is up, the list
  fetched in one month is served in the next (`CategoryCache.ServedWhileFresh`).

One exception: the category lookup of `recordExpense` also finds names
inherited from `Object.prototype` (see "## Findings"). The batch model uses
the corrected lookup, which finds header columns only; the code as written is
modelled beside it (`CategoryDirectory.LookupAsWritten`).

## Model

| member | source | states |
|---|---|---|
| Text.Split | src/services/sheets.js:31 | `date.split('/')` gives at least one piece, and no piece contains the separator |
| Text.SplitCount | src/services/sheets.js:65-66 | a split gives one more piece than the string has separators, which is what the three-piece check counts |
| Text.JoinSplit | src/services/sheets.js:65 | joining the pieces of a split with the separator gives back the original string |
| Text.SplitJoin | src/services/sheets.js:31-34 | splitting the join of separator-free pieces gives back exactly those pieces |
| Text.SplitPrefix | src/services/sheets.js:31 | a separator-free prefix is glued onto the first piece of what follows |
| Text.SplitNoSep | src/services/sheets.js:31 | a string without the separator splits into itself |
| Text.Join | src/services/sheets.js:80 | defines `parts.join(sep)`: "" for no part, otherwise the separator between neighbours; `JoinSplit` and `JoinSnoc` state its properties |
| Text.JoinSnoc | src/services/sheets.js:80 | joining one more piece appends the separator and that piece |
| Text.PadStart | src/services/sheets.js:32 | `padStart(2, '0')` gives the longer of the string and the width, with the string at the end and fill characters before it |
| Text.NatToString | src/services/sheets.js:139 | the numeral of a template literal is non-empty, all digits, and has no leading zero |
| Text.NatToStringValue | src/services/sheets.js:139 | the value of the rendered numeral is the number rendered |
| Text.IntToString | src/services/sheets.js:142 | the rendering of an integer never contains '/' |
| Text.TrimStart | src/services/sheets.js:70 | `parseInt` drops a prefix made only of white space, and what remains does not start with white space |
| Text.LeadingDigits | src/services/sheets.js:70 | the digits `parseInt` reads are a digit prefix, followed by a non-digit or the end |
| Text.ParseInt | src/services/sheets.js:70 | defines `parseInt(s, 10)`: skip leading white space, an optional sign, then the longest digit run, NaN (None) without a digit; `ParseIntDigits` and `ParseIntOfNumeral` state its properties |
| Text.ParseIntDigits | src/services/sheets.js:70 | `parseInt` of a digit run followed by a non-digit is the value of the run |
| Text.ParseIntOfNumeral | src/services/sheets.js:70 | `parseInt` gives back a rendered integer, whatever leading zeros and non-digit text surround it |
| MonthResolver.SheetTitle | src/services/sheets.js:29-35 | the title of a date of at least three pieces splits into the second piece padded to two characters and the third piece |
| MonthResolver.ClockTitle | src/services/sheets.js:36-39 | defines the title of the clock's month: the month padded with '0' to two characters, '/', the year; `ClockTitleShape` and `ClockTitleAgrees` state its properties |
| MonthResolver.ClockTitleShape | src/services/sheets.js:36-39 | the clock's title is the month's numeral padded to two digits, '/', then the year's numeral |
| MonthResolver.ClockTitleAgrees | src/services/sheets.js:29-39 | the clock's title is the title of any date in that month |
| MonthResolver.TitleOfDate | src/services/sheets.js:31-34 | a date `d/m/y` is in tab `pad(m)/y`; the day and anything else are ignored |
| MonthResolver.DatePartsOf | src/services/sheets.js:65 | a date assembled from three separator-free pieces splits back into them |
| MonthResolver.DayOf | src/services/sheets.js:65-74 | a date is accepted exactly when it has three pieces and `parseInt` of the first is a number in [1, 31], and the day is that number |
| MonthResolver.DayOfNumeral | src/services/sheets.js:70-74 | a day numeral from 1 to 31, with any leading zeros, is accepted and gives that day, whatever the month and year |
| MonthResolver.WrongPieceCountRejected | src/services/sheets.js:66-69 | a date with a number of '/' other than two is rejected |
| MonthResolver.TitleExample | src/services/sheets.js:31-34 | "9/2/2025" is in tab "02/2025" |
| MonthResolver.ThirtyFirstAccepted | src/services/sheets.js:70-76 | day 31 is accepted in any month and written in row 32 |
| CellMerge.Merge | src/services/sheets.js:135-144 | a cell's number grows by the amount, and it is never empty afterwards; an empty cell becomes the plain amount with the description as its note; otherwise the formula text gains " + amount", and a plain number v becomes "= v + amount", with the description appended to the note |
| CellMerge.MergeEach | src/services/sheets.js:130-147 | defines several writes into one cell as `Merge` applied in order; `MergeEachAppend`, `MergeEachTotal`, `MergeIntoEmpty` and `MergeIntoEmptyNote` state its properties |
| CellMerge.MergeEachAppend | src/services/sheets.js:130-147 | merging a + b is merging a, then b |
| CellMerge.MergeEachTotal | src/services/sheets.js:130-147 | a cell's number grows by exactly the sum of the amounts merged into it |
| CellMerge.MergeEachNotEmpty | src/services/sheets.js:135-137 | a cell that receives a write never returns to empty |
| CellMerge.MergeIntoEmpty | src/services/sheets.js:135-144 | amounts a1..an merged into an empty cell give the plain a1 when n = 1, and the formula "= a1 + a2 + .. + an" otherwise; the number is their sum |
| CellMerge.MergeIntoEmptyNote | src/services/sheets.js:137-143 | when no description is empty, the note of a cell that was empty is the descriptions joined by ", " in merge order |
| CellMerge.MergeTwiceCountsTwice | src/services/sheets.js:135-144 | merging is not idempotent: the same write merged twice counts twice |
| CategoryDirectory.NonBlank | src/services/sheets.js:56 | `filter(Boolean)` keeps only non-empty strings and never lengthens the list |
| CategoryDirectory.CategoryNames | src/services/sheets.js:56 | defines `headerValues.slice(1).filter(Boolean)`; `CategoryNamesMembers` and `NonBlankAppend` state its properties |
| CategoryDirectory.NonBlankMembers | src/services/sheets.js:56 | a string survives the filter exactly when it is non-empty and present |
| CategoryDirectory.NonBlankAppend | src/services/sheets.js:56 | the filter keeps the order of the headers: the categories of two runs of headers are those of the first run followed by those of the second |
| CategoryDirectory.CategoryNamesMembers | src/services/sheets.js:52-57 | the category list holds exactly the non-empty headers after column 0 |
| CategoryDirectory.CategoryMap | src/services/sheets.js:98-101 | defines the category map after the header loop; `CategoryMapSpec` states its keys and columns |
| CategoryDirectory.CategoryKeys | src/services/sheets.js:109 | defines `Object.keys(categoryMap)` in insertion order; `KeysUpToSpec` states that it lists each key once |
| CategoryDirectory.MapUpToSpec | src/services/sheets.js:98-101 | after the loop up to n, the keys are the keyable headers in columns 1..n-1, and each maps to the last such column |
| CategoryDirectory.KeysUpToSpec | src/services/sheets.js:98-101 | `Object.keys` lists each key of the map exactly once |
| CategoryDirectory.CategoryMapSpec | src/services/sheets.js:98-101 | a name is a key exactly when some header after column 0 carries it (and it is keyable); it then maps to the last such column, never column 0 |
| CategoryDirectory.MapAgreesWithNames | src/services/sheets.js:52-57 | the category map and the category list name the same categories, except that "__proto__" is only in the list |
| CategoryDirectory.BuildCategoryMap | src/services/sheets.js:98-101 | the header loop builds the category map and its key order as specified |
| CategoryDirectory.InheritedNameSlipsThrough | src/services/sheets.js:106-107 | with the lookup as written (`LookupAsWritten`: own keys, then names inherited from `Object.prototype`), the category "toString" on a tab with no "toString" column is not undefined, although it is not a key of the map, so no error is reported for it |
| CategoryDirectory.ColumnOfResolvesExactlyHeaders | src/services/sheets.js:98-113 | with the corrected own-key lookup (`ColumnOf`), a category resolves exactly when a keyable header after column 0 carries it, and then to the last such column |
| BatchRecorder.ValidOf | src/services/sheets.js:63-77 | defines the records that pass the date check, in input order, with day, row and title; `DatePass` and `DatePassCount` state its properties |
| BatchRecorder.DateErrorsOf | src/services/sheets.js:63-77 | defines one date error per rejected record, in input order; `DatePassCount` states its properties |
| BatchRecorder.AcceptedCount | src/services/sheets.js:63-77 | the valid list holds each input record whose date is accepted as often as the input does, and no record whose date fails |
| BatchRecorder.FilterCount | src/services/sheets.js:63-77 | the records kept by a filter, such as the records whose date fails, are each input record that passes it, as often as the input holds it, and no other |
| BatchRecorder.CollectValid | src/services/sheets.js:63-77 | the date loop produces the valid records and the date errors that the specification functions give |
| BatchRecorder.DatePassCount | src/services/sheets.js:63-77 | every record lands in exactly one of the valid list and the error list: the valid records and the rejected records together are the input as a multiset, the rejected records are exactly the input records whose date fails, and the i-th date error is the error of the i-th rejected record |
| BatchRecorder.DatePass | src/services/sheets.js:65-76 | each valid record is an input record with an accepted day; its row is day + 1, in 2..32, and its title is its date's tab |
| BatchRecorder.Titles | src/services/sheets.js:84-92 | defines the group keys in order of first appearance; `TitlesSpec` states its properties |
| BatchRecorder.GroupOf | src/services/sheets.js:84-88 | defines the records of one title, in input order; `GroupOfSpec` states its properties |
| BatchRecorder.TitlesSpec | src/services/sheets.js:84-92 | the group keys are distinct and are exactly the titles of the valid records |
| BatchRecorder.GroupOfSpec | src/services/sheets.js:84-88 | a group holds only input records of its title; it is empty exactly when its title is not a key |
| BatchRecorder.GroupByTitle | src/services/sheets.js:84-88 | the grouping loop gives the keys in order of first appearance and each key's records in input order |
| BatchRecorder.GroupOfCount | src/services/sheets.js:84-88 | a group holds each valid record of its title as often as the valid list does, and no record of another title |
| BatchRecorder.GroupedCount | src/services/sheets.js:84-92 | the groups of distinct titles, one after another, hold each valid record of one of those titles as often as the valid list does, and no other |
| BatchRecorder.GroupsCoverAll | src/services/sheets.js:84-92 | the groups of all the keys together are the valid records as a multiset: each valid record sits in exactly one group, once |
| BatchRecorder.Resolved | src/services/sheets.js:104-114 | defines a group's records whose category names a column, placed at that column, in group order; `ResolveSpec` states its properties |
| BatchRecorder.CategoryErrors | src/services/sheets.js:104-112 | defines one unknown-category error per record whose category names no column, listing the map's keys; `ResolveSpec` states its properties |
| BatchRecorder.ResolveColumns | src/services/sheets.js:104-114 | the category loop produces the placed records and category errors that the specification functions give |
| BatchRecorder.ResolveSpec | src/services/sheets.js:98-114 | placed and reported records together are as many as the group; a placed record is one of the group's records, at a header column after column 0 that carries its category, with no later column carrying it |
| BatchRecorder.ResolveComplete | src/services/sheets.js:104-114 | each record of a group is placed at its column when its category names one, and reported with the tab's category list otherwise |
| BatchRecorder.ErrorsReportUnresolved | src/services/sheets.js:106-112 | every category error reports a record of the group whose category names no column, so no placed record is also reported |
| BatchRecorder.ResolvedCount | src/services/sheets.js:104-114 | the placed records hold each expense whose category names a column as often as the group does, and no other expense |
| BatchRecorder.ResolvedTitles | src/services/sheets.js:113 | placing keeps a record's tab title |
| BatchRecorder.Min | src/services/sheets.js:119 | `Math.min` over a non-empty list is an element and a lower bound |
| BatchRecorder.Max | src/services/sheets.js:120 | `Math.max` over a non-empty list is an element and an upper bound |
| BatchRecorder.BoundingBox | src/services/sheets.js:119-128 | the loaded rectangle holds the cell of every placed record, and each of its four edges passes through one of them |
| BatchRecorder.Apply | src/services/sheets.js:130-147 | defines the cells after the placed records are merged one after another; `ApplyAt`, `ApplyTotal` and `ApplyUntouched` state its properties |
| BatchRecorder.ApplyAt | src/services/sheets.js:130-147 | each cell ends as its own writes, merged in order, leave it; records sharing a cell compound |
| BatchRecorder.ApplyTotal | src/services/sheets.js:130-147 | a cell's number grows by the sum of the amounts written into it |
| BatchRecorder.ApplyUntouched | src/services/sheets.js:130-147 | a cell that no record targets is unchanged |
| BatchRecorder.OfTitleAppend | src/services/sheets.js:146 | selecting one tab's records distributes over concatenation |
| BatchRecorder.OfTitleUniform | src/services/sheets.js:146 | records of a single tab are all kept for it and none for another |
| BatchRecorder.RecordGroup | src/services/sheets.js:92-151 | defines one pass of the group loop; `RecordGroupShape`, `RecordGroupsEffect` and `RecordGroupsCount` state its properties |
| BatchRecorder.RecordGroups | src/services/sheets.js:92-151 | defines the group loop over titles in order; `RecordGroupsThrows`, `RecordGroupsEffect` and `RecordGroupsCount` state its properties |
| BatchRecorder.Record | src/services/sheets.js:59-154 | defines `recordExpense` on a workbook: the date throw of lines 79-81, else the group loop; `RecordThrows`, `RecordAccounting`, `RecordEffect` and `EverythingRecorded` state its properties |
| BatchRecorder.ThrownStays | src/services/sheets.js:93 | once the group loop has thrown, later groups change nothing |
| BatchRecorder.RecordGroupShape | src/services/sheets.js:92-151 | one group pass never adds or removes a tab and never changes a header row |
| BatchRecorder.RecordGroupsKeepsShape | src/services/sheets.js:92-151 | the group loop never adds or removes a tab and never changes a header row |
| BatchRecorder.FirstMissingSpec | src/services/sheets.js:92-93 | the first title without a tab is found exactly when some title lacks one, and every title before it has a tab |
| BatchRecorder.RecordGroupsThrows | src/services/sheets.js:92-93 | the group loop throws exactly when some title has no tab, with the message naming the first such title |
| BatchRecorder.RecordGroupsEffect | src/services/sheets.js:92-151 | when the loop returns, the records kept for each tab are its group's placed records in order, and its cells are its old cells with them merged in |
| BatchRecorder.RecordGroupsCount | src/services/sheets.js:92-153 | when the loop returns, the errors start with the date errors; each record of a listed group on a present tab is placed at its column or reported with the tab's category list; and recorded plus errors are as many as the date errors plus the group records |
| BatchRecorder.RecordEmptyBatch | src/services/sheets.js:59-154 | an empty batch returns no record and no error and changes nothing |
| BatchRecorder.MissingTitle | src/services/sheets.js:92-93 | some group title lacks a tab exactly when some valid record's title lacks one |
| BatchRecorder.RecordThrows | src/services/sheets.js:79-93 | a batch throws exactly when no record has a valid date while some date error exists (with the date errors joined by newlines, and nothing written), or when a valid record's month has no tab |
| BatchRecorder.RecordThrowMessage | src/services/sheets.js:42-50 | otherwise a throwing batch names the first month, in order of first appearance, that has no tab |
| BatchRecorder.RecordGroupsThrowKeepsPrefix | src/services/sheets.js:92-93 | when the loop meets its first title without a tab, the titles before it returned, and the loop throws with their tabs |
| BatchRecorder.RecordThrowKeepsEarlierGroups | src/services/sheets.js:92-149 | a batch that throws for a missing tab leaves the workbook as the groups before the first missing month wrote it: there is no rollback |
| BatchRecorder.OfTitleCount | src/services/sheets.js:117-149 | when every record of an expense sits in one tab, that tab's records hold it as often as all records do, and another tab's records do not hold it |
| BatchRecorder.GroupExpenseCount | src/services/sheets.js:84-88 | when every valid record of an expense has one title, that title's group holds it as often as the valid list does, and another group does not |
| BatchRecorder.RecordableResolves | src/services/sheets.js:65-107 | a record can be written exactly when its date is accepted, its month has a tab, and its category names a column of that tab |
| BatchRecorder.RecordedHomeCount | src/services/sheets.js:59-154 | when the batch returns, an expense with an accepted date and a tab is recorded as often as the input holds it if its category names a column, and never otherwise |
| BatchRecorder.RecordedCount | src/services/sheets.js:59-154 | when the batch returns, `recorded` holds each expense that can be written as often as the input does, and no other |
| BatchRecorder.RecordAccounting | src/services/sheets.js:59-154 | when the batch returns, recorded plus errors are as many as the input, and `recorded` is, as a multiset, exactly the input records that can be written |
| BatchRecorder.RecordReports | src/services/sheets.js:63-116 | when the batch returns, the errors start with the date errors, in order, and every dated record is placed at its column or reported with its category and its tab's category list |
| BatchRecorder.RecordEffect | src/services/sheets.js:59-154 | when the batch returns, tabs and header rows are kept, and every recorded entry belongs to an existing tab; each tab's recorded entries are its month's records with a known category, in input order; its cells are its old cells with them merged in |
| BatchRecorder.RecordCellEffect | src/services/sheets.js:130-149 | cell by cell, a tab after the batch holds its old cell with the batch's writes to that cell merged in, in input order |
| BatchRecorder.EverythingRecorded | src/services/sheets.js:59-154 | a batch whose records all have an accepted date, a tab for their month and a header column carrying their category returns with no error, and `recorded` holds exactly the input records, each as often as the input does |
| BatchRecorder.AllDatesAccepted | src/services/sheets.js:63-77 | a batch whose dates are all accepted has no date error |
| BatchRecorder.CategoryErrorsNone | src/services/sheets.js:105-112 | a group whose categories all name a column gives no category error |
| BatchRecorder.RecordGroupsOnlyDateErrors | src/services/sheets.js:92-151 | when no group has a category error, a returning loop reports only the date errors |
| BatchRecorder.PlacedSound | src/services/sheets.js:104-114 | a placed record is an input record at an existing tab's header column (after the first) that carries its category, with day, row and tab taken from its date |
| BatchRecorder.GroupedSound | src/services/sheets.js:84-88 | a record of a group is a dated input record of that group's title |
| BatchRecorder.RecordedEntriesSound | src/services/sheets.js:146 | every entry of `recorded` satisfies the same |
| BatchRecorder.ResolvedNone | src/services/sheets.js:106-111 | no record of a group is placed when no category of the group names a column |
| BatchRecorder.UnknownCategoriesRecordNothing | src/services/sheets.js:105-116 | a batch whose dated records all have a tab but name no column does not throw: it records nothing and leaves the workbook as it was; it reports as many errors as records, starting with the date errors, and each dated record's category with its tab's category list |
| Sheets.Sheet.constructor | src/services/sheets.js:45 | a worksheet starts with its title, header row and saved cells, with nothing loaded and no edit |
| Sheets.Sheet.LoadCells | src/services/sheets.js:123-128 | loading a rectangle makes it the loaded range and leaves the cells alone |
| Sheets.Sheet.GetCell | src/services/sheets.js:131 | a loaded cell reads as its latest edit, else as saved |
| Sheets.Sheet.SetCell | src/services/sheets.js:135-144 | assigning a loaded cell records one edit and changes nothing else |
| Sheets.Sheet.SaveUpdatedCells | src/services/sheets.js:149 | saving makes the edits the saved cells and clears them |
| Sheets.Sheet.MergeGroup | src/services/sheets.js:118-149 | loading the bounding rectangle, merging each placed record into its cell in turn, and saving leaves the cells as `Apply` specifies |
| Sheets.Document.GetSheet | src/services/sheets.js:42-50 | the tab of a title is found when it exists; otherwise the missing-tab message is thrown |
| Sheets.Document.CategoriesOf | src/services/sheets.js:52-57 | defines what `getCategories` gives: the category names of the clock month's tab, or the missing-tab error; `CategoriesOfMembers` and `ListedCategoriesResolve` state its properties |
| Sheets.Document.GetCategories | src/services/sheets.js:52-57 | the category list of the clock month's tab, or the missing-tab error; each call adds one to the document's fetch count |
| Sheets.CategoriesOfMembers | src/services/sheets.js:52-57 | the category list holds exactly the non-empty header cells after column 0 of the clock month's tab |
| Sheets.ListedCategoriesResolve | src/services/sheets.js:52-57 | every listed category except "__proto__" resolves to a column when a record is written in that month |
| Sheets.Document.RecordExpense | src/services/sheets.js:59-154 | the answer and the workbook afterwards are those of `Record` on the workbook as it was |
| Sheets.Document.RecordTitle | src/services/sheets.js:92-116 | one pass of the group loop has the effect and answer of `RecordGroup` |
| Sheets.Document.MergeIntoSheet | src/services/sheets.js:116-149 | a group with placed records changes only its own tab's cells, as `Apply` specifies; one without changes nothing |
| CategoryCache.Step | src/services/ai-parser.js:9-18 | defines one call as its answer and next state; the lemmas below state its properties |
| CategoryCache.ServedWhileFresh | src/services/ai-parser.js:10-13 | within the hour, the cached list is served whatever a fetch would give, and the cache does not change |
| CategoryCache.EmptyListIsServed | src/services/ai-parser.js:11 | an empty cached list counts as cached (an empty array is truthy) |
| CategoryCache.RefetchedWhenStale | src/services/ai-parser.js:11-17 | with nothing cached, or after an hour or more, the answer is the fetch; a fetched list is stored with the time, and a failed fetch leaves the cache unchanged |
| CategoryCache.FirstCallFetches | src/services/ai-parser.js:5-6 | the first call after start-up always fetches |
| CategoryCache.AnswerIsCached | src/services/ai-parser.js:14-17 | a successful answer is what the cache holds afterwards, fresh at the call's time |
| CategoryCache.RepeatedCallAgrees | src/services/ai-parser.js:9-18 | a second call before the stored list is an hour old gives the same answer and changes nothing |
| CategoryCache.RefreshLastsAnHour | src/services/ai-parser.js:7-17 | after a refetch, every call up to an hour later is served from the cache |
| CategoryCache.ClockBackwardsServes | src/services/ai-parser.js:11 | a clock set back before the fetch keeps serving the cached list |
| CategoryCache.Cache.constructor | src/services/ai-parser.js:5-6 | the cache starts empty at time 0 |
| CategoryCache.Cache.GetCachedCategories | src/services/ai-parser.js:9-18 | one call answers and updates the cache as `Step` specifies, with the fetch being `getCategories` on the document; a call while the list is fresh does not call `getCategories`, and any other call calls it exactly once |

## Left out

- BatchRecorder.ResolveColumns: the batch (`Resolved`, `CategoryErrors`,
  `ResolveColumns`, and through them `Record` and `RecordExpense`) uses the
  corrected own-key lookup `ColumnOf`. It reports a category such as
  "toString" as unknown. As written, the code finds the inherited
  `Object.prototype` member, reports no error, and pushes the record with a
  function as its column, so the `Math.min`/`Math.max` of lines 119-122 give
  NaN. The as-written lookup is modelled on its own (`LookupAsWritten`,
  `InheritedNameSlipsThrough`) but not carried through the batch.
- JavaScript strings are sequences of UTF-16 code units; here a string is a
  sequence of Unicode characters. `padStart` counts code units, so
  `"😀".padStart(2, '0')` is `"😀"` in JavaScript but `PadStart` gives
  `"0😀"`. Lone surrogates cannot be represented. A month piece outside the
  Basic Multilingual Plane is the only input where titles differ.
- Sheets.Sheet.GetCell: that a loaded cell reads back an edit made earlier in
  the same group, before the save, is an assumption about the spreadsheet
  library, which is not part of this model. Records sharing a cell compound
  because of it.
- Authentication, loading the spreadsheet document (`getAuth`, `getDoc`,
  `cachedDoc`), and the year-dependent spreadsheet id are left out. They are
  I/O and configuration; the document is a `Sheets.Document` given to the
  methods.
- `async`/`await` and concurrency are left out. Two overlapping batches, or
  two overlapping cache refreshes, are not modelled; every call runs to
  completion alone.
- Logging (`logger.info`) is left out.
- The clock is a parameter. `getSheetTitle()` without a date reads the month
  and year as `ClockTitle(month, year)`. `getCachedCategories` takes the
  millisecond reading, and the month and year of that same reading, as
  parameters. Time zones are not modelled.
- `MonthResolver.SheetTitle` requires a date of at least three pieces. With
  fewer, the code reads `parts[1]` or `parts[2]` as `undefined`: it either
  throws or builds the title `MM/undefined`. `recordExpense` only calls it on
  dates of exactly three pieces.
- The spreadsheet library's cell objects are modelled as map entries. A cell
  value is empty, a plain integer, or a formula with its computed value.
  Text cell values, fractional amounts, amounts of 1e21 or more (which render
  in exponent form), and a formula whose value reads as `''` are not modelled.
- Reading a row or column beyond the sheet's grid is not modelled; neither is
  a `loadCells`, save or header-load failure, which would throw and end the
  batch with earlier groups already saved.
- The rectangle is modelled with inclusive bounds. The code passes the
  exclusive end bounds `maxRow + 1` and `maxCol + 1`, which describe the same
  cells.
- The order of `Object.keys` for integer-like header texts is not modelled.
  Such keys would be listed first in the unknown-category message; here keys
  are listed in insertion order.
- `getCategories`' `loadHeaderRow` is not modelled. Header rows are fixed per
  worksheet (`headerValues` is a constant).
- `parseExpense`, `buildSystemPrompt` and the rest of the parser are not part
  of this model, apart from the category cache.

## Findings

| source | as written | input that shows it | evidently intended | confidence | as-written member | corrected member |
|---|---|---|---|---|---|---|
| src/services/sheets.js:106-107 | `categoryMap` is a plain object, so `categoryMap[expense.category]` also finds members inherited from `Object.prototype`, and the `=== undefined` guard lets them through | a record with category `"toString"` on a tab with no such column: no error is reported, and the record is pushed with a function as its column index | only header columns resolve; any other category is reported as unknown | not executed | CategoryDirectory.InheritedNameSlipsThrough | CategoryDirectory.ColumnOfResolvesExactlyHeaders |
