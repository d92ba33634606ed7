# Reading tracker core, modelled in Dafny

This project models the core of a browser-based reading tracker, which keeps
a list of book records. Three scripts are modelled.

The record store (`scripts/state.js`) holds the records and a counter for
the next id. Ids have the form `rec_0001`. The store:

- migrates records from older versions on load;
- adds, updates, deletes and imports records, saving the list after each change;
- logs reading progress against a book's page count;
- computes the dashboard statistics.

The form validators (`scripts/validators.js`) check a title, author, page
count, date and tag with regular expressions and collect error messages.

The search helpers (`scripts/search.js`):

- escape a query so it matches literally;
- filter and highlight records by that query;
- sort a copy of the records by a field.

The Dafny modules follow those scripts:

- `Text`: character classes, plus the JavaScript primitives the scripts
  use. These are `String(n)`, `padStart`, `parseInt`, ASCII `toLowerCase`
  and string `<`.
- `RecordIds`:
  - the `rec_` ids;
  - the counter recomputed from existing ids, in two versions: as the source
    writes it (with JavaScript `NaN`) and corrected.
- `Records`: the record types and the pure record operations:
  - migration;
  - lookup by id;
  - merging updates;
  - new records;
  - import filling;
  - reading-progress entries.
- `Sorting`: the stable sort behind `sortRecords` and the recency list of
  `getStats`. It is proved sorted, a permutation, and order-preserving among
  equal keys.
- `Stats`: `getStats`.
- `Store`: a class `RecordStore`. Its fields are:
  - `records`;
  - `nextId`;
  - `saved`, which is what storage holds.

  Each exported function of `state.js` that changes state is a method. Its
  contract gives the whole new state.
- `Validators`: each pattern as a character-level predicate; `validateField`;
  `validateRecord`. The title, pages, date and tag patterns are proved to
  accept exactly the strings stated in their `...Meaning` or `...IsNumeral`
  lemmas. The duplicate-word pattern is transcribed directly
  (`DuplicateAt`) and has no such lemma, only `NoSpaceNoDuplicate` and
  `DuplicateIgnoresCase` about it.
- `Search`:
  - `escapeRegex`, proved to produce a pattern that matches the query
    literally;
  - `searchRecords` in basic (escaped) mode, both as written and as
    intended;
  - `highlightMatches` in basic mode, once, as written.

Clock reads are parameters. Each operation takes one instant, `now`, as an
abstract number of milliseconds. `saveData(records)` assigns the `saved`
field, and `Save` proves that loading `saved` gives back `records`.

The favourite category of `getStats` is a reduce with a strict `>` that
starts from `'None'`, so of the tags tied at the greatest count it picks the
one whose first record comes latest (`Stats.FavoriteTiesGoLater`).

The `RecordStore` class keeps the corrected id counter (`RecordIds.NextId`)
rather than `Math.max(...) + 1` as written (`RecordIds.NextIdAsWritten`).
The two agree whenever every id suffix is a non-negative number; where they
differ is recorded under "## Findings".

## Model

| member | source | states |
|---|---|---|
| Text.NatToString | scripts/state.js:35 | `String(n)` of a non-negative integer: at least one digit, only digits, no leading zero unless it is `0` |
| Text.NatToStringValue | scripts/state.js:35 | the numeral reads back as the number |
| Text.CanonicalNumeral | scripts/validators.js:5 | a digit string without superfluous leading zeros is exactly `String` of its value |
| Text.PadStart | scripts/state.js:35 | `padStart`: unchanged when already wide enough, otherwise exactly `width` long, the fill in front of the original text |
| Text.LeadingZeros | scripts/state.js:35 | zeros in front of a numeral do not change its value |
| Text.ParseIntWithoutDigits | scripts/state.js:7 | `parseInt` of a text without a decimal digit is `NaN` |
| Text.ParseIntOfDigitsThen | scripts/state.js:7 | `parseInt` of digits followed by a non-digit reads the digits |
| Text.ParseIntOfPadded | scripts/state.js:7 | `parseInt` of a zero-padded numeral gives back the number, for every width |
| Text.Lower | scripts/search.js:61 | `toLowerCase` keeps the length and lowers each ASCII capital |
| Text.LexLessTransitive | scripts/search.js:65-66 | string `<` is transitive |
| Text.LexLessTotal | scripts/search.js:65-66 | of two different strings one is `<` the other |
| RecordIds.FormatId | scripts/state.js:35 | an id starts with `rec_` and has at least four characters after it |
| RecordIds.FormatIdShape | scripts/state.js:35 | an id is `rec_` and at least four digits, exactly four while the counter is below 10000 |
| RecordIds.SuffixOfFormatId | scripts/state.js:7 | `parseInt(id.split('_')[1])` of a generated id is the counter it was built from, also above 9999 |
| RecordIds.NoUnderscoreIsNaN | scripts/state.js:7 | `parseInt(id.split('_')[1])` of an id without `_` is `NaN`: the split has no second piece |
| RecordIds.FormatIdInjective | scripts/state.js:35 | different counters give different ids |
| RecordIds.CounterAbove | scripts/state.js:7 | the corrected counter is at least 1 and above every suffix that parses |
| RecordIds.NextId | scripts/state.js:7 | the counter recomputed from a list of ids is at least 1 |
| RecordIds.NextIdIsAbove | scripts/state.js:7 | every numeric id suffix is below the counter |
| RecordIds.NextIdIsTight | scripts/state.js:7 | the counter is 1 or one more than some suffix, so it is one past the largest and 1 for no ids |
| RecordIds.NextIdIsLeast | scripts/state.js:7 | any bound of at least 1 above every suffix is at least the counter |
| RecordIds.NextIdIsFresh | scripts/state.js:35 | the id built from any counter value at or past the recomputed one is not taken |
| RecordIds.JsMax | scripts/state.js:7 | `Math.max(...)` is `NaN` exactly when some value is `NaN`, otherwise the largest value |
| RecordIds.NextIdAsWritten | scripts/state.js:7 | the counter as written is `NaN` exactly when some suffix is not a number; otherwise it is above every suffix and is 1 for no ids or one past some suffix |
| RecordIds.Increment | scripts/state.js:35 | `nextId++` keeps `NaN` as `NaN` and otherwise adds one |
| RecordIds.FormatIdAsWritten | scripts/state.js:35 | the id built from the counter as written equals the corrected id for a non-negative counter, and is `rec_0NaN` for `NaN` |
| RecordIds.NextIdAsWrittenAgrees | scripts/state.js:7 | when every suffix is a non-negative number, the counter as written equals the corrected one |
| RecordIds.NaNCounterRepeatsIds | scripts/state.js:7 | as written, one id without a numeric suffix makes the counter `NaN`, and every later add issues `rec_0NaN` |
| RecordIds.NaNCounterExample | scripts/state.js:83 | the list `["book-1"]` gives the counter `NaN` as written and 1 corrected |
| RecordIds.NegativeCounterExample | scripts/state.js:35 | as written, `rec_-7` gives the counter -6 and the id `rec_00-6`, whose suffix reads back as 0; corrected, the counter is 1 |
| Records.Migrate | scripts/state.js:12-16 | every field is kept; `pagesRead` becomes 0 and `readHistory` becomes empty only when missing |
| Records.MigrateAll | scripts/state.js:11-17 | migration keeps the length and migrates each record in place |
| Records.Stored | scripts/state.js:42 | the stored form carries both progress fields, and migrating it gives the record back |
| Records.StoredAll | scripts/state.js:42 | `saveData(records)` writes the stored form of each record, in order |
| Records.MigrateStoredRoundTrip | scripts/state.js:5 | migrating what was saved gives back the saved list |
| Records.MigrateIdempotent | scripts/state.js:11-17 | migrating a migrated record changes nothing |
| Records.FindIndex | scripts/state.js:49 | `findIndex`: `None` exactly when no record has the id, otherwise the first index whose record has it |
| Records.Find | scripts/state.js:27 | `find`: `None` exactly when the id is absent, otherwise the record at the first index holding that id |
| Records.ApplyUpdates | scripts/state.js:51-55 | the spread: each field given in the updates overrides, all others are kept, `id` and `createdAt` are kept, `updatedAt` is now |
| Records.NoUpdatesOnlyTouches | scripts/state.js:51-55 | empty updates change only `updatedAt` |
| Records.ApplyUpdatesIdempotent | scripts/state.js:51-55 | applying the same updates twice is applying them once, at the later time |
| Records.NewRecord | scripts/state.js:33-40 | the draft's fields, the counter's id, no pages read, empty history, both timestamps now |
| Records.FillIncoming | scripts/state.js:78-81 | a missing or empty id becomes the id of the 1-based position; missing timestamps become now; other fields are kept |
| Records.Imported | scripts/state.js:77-82 | the import keeps the length and fills then migrates each record in place |
| Records.ImportCanDuplicateIds | scripts/state.js:79 | an imported `rec_0001` and an id-less first record both end up as `rec_0001` |
| Records.ProgressUpdates | scripts/state.js:126-139 | the updates set only `pagesRead` (old plus delta) and `readHistory` (the new entry in front of the old history) |
| Records.LogProgress | scripts/state.js:122-140 | `None` exactly when a page count is known and would be exceeded; otherwise the new count, the new entry in front, and every other field but `updatedAt` kept |
| Records.LogProgressKeepsBound | scripts/state.js:122-123 | from `0 <= pagesRead <= pages`, a non-negative delta that succeeds keeps that bound |
| Records.NegativeDeltaAccepted | scripts/state.js:122-123 | a negative delta is not rejected and can make `pagesRead` negative |
| Sorting.DirectionOf | scripts/search.js:65-66 | ascending exactly for `'asc'`, descending for anything else |
| Sorting.KeyOf | scripts/search.js:50-63 | the `pages` key is the page count, a missing one as 0, and carries no text; a string key has number 0 and text with no capital letter A-Z, so case never decides the order |
| Sorting.KeyLessTransitive | scripts/search.js:65-67 | the comparator's order on keys is transitive |
| Sorting.KeyLessTotal | scripts/search.js:65-67 | keys that differ are ordered one way or the other |
| Sorting.Insert | scripts/search.js:49 | insertion adds the one record to the multiset |
| Sorting.Sort | scripts/search.js:49 | the sort is a permutation |
| Sorting.InsertSorted | scripts/search.js:49-68 | inserting into a sorted list keeps it sorted |
| Sorting.InsertWithKey | scripts/search.js:67 | an inserted record goes in front of every record with an equal key |
| Sorting.SortSorted | scripts/search.js:49-68 | no record of the result is strictly before an earlier one |
| Sorting.SortStable | scripts/search.js:67 | records with equal keys keep their relative order |
| Sorting.SortRecords | scripts/search.js:48-68 | `sortRecords`: a permutation of the input, sorted in the requested direction, stable |
| Sorting.SortByPagesOrdered | scripts/search.js:54-56 | by `pages`, the counts (missing as 0) do not decrease ascending and do not increase descending |
| Sorting.SortByTextOrdered | scripts/search.js:60-66 | by a string field, the lower-cased values follow string order, or its reverse |
| Stats.SumPages | scripts/state.js:96 | the page total (missing counts as 0) is never negative while no page count is |
| Stats.SumPagesRead | scripts/state.js:97 | the pages-read total is never negative while no record's count is |
| Stats.Count | scripts/state.js:100-103 | `tagCounts[t]` is at most the number of records, and 0 exactly when no record has the tag |
| Stats.SumsAppend | scripts/state.js:96-97 | both page sums split over a concatenation |
| Stats.TagKeys | scripts/state.js:100-104 | `Object.keys(tagCounts)`: each tag of the records exactly once, in the order the tags first appear |
| Stats.Reduce | scripts/state.js:104-105 | the reduce ends on the start value or on a key, with a count no smaller than the start value's |
| Stats.ReduceResult | scripts/state.js:104-105 | the reduce ends on a key of greatest count, the last such key, unless the start value beats all keys |
| Stats.Favorite | scripts/state.js:104-105 | `'None'` for no records; otherwise the tag of some record whose count is the greatest |
| Stats.FavoriteTiesGoLater | scripts/state.js:104-105 | of two tags sharing the greatest count, the earlier key is never chosen |
| Stats.LastInteracted | scripts/state.js:108-110 | `min(3, n)` records of the list, most recent first, none of the rest more recent |
| Stats.GetStats | scripts/state.js:94-113 | the figures are the count, the two sums, the favourite tag and the recent list |
| Stats.EmptyStats | scripts/state.js:94-113 | no records give `0, 0, 0, 'None', []` |
| Stats.StatsAfterAppend | scripts/state.js:95-97 | one more record adds one to the count, its pages (0 if missing) and its pages read to the sums |
| Store.AddedRecord | scripts/state.js:35-41 | the record the counter names is new, is found by its id once appended, and the counter stays ahead |
| Store.RecordStore.Load | scripts/state.js:5-7 | start-up migrates the stored records and sets the counter from their ids |
| Store.RecordStore.Save | scripts/state.js:42 | storage holds the records, and loading it gives them back |
| Store.RecordStore.GetRecords | scripts/state.js:21-23 | the current records |
| Store.RecordStore.GetRecordById | scripts/state.js:26-28 | the first record with the id, `None` exactly when there is none |
| Store.RecordStore.AddRecord | scripts/state.js:32-44 | one new record at the end, with an id nobody had and suffix equal to the old counter; counter plus one; earlier records unchanged; saved |
| Store.RecordStore.UpdateRecord | scripts/state.js:48-60 | unknown id: `None`, nothing changes; otherwise only the first match is replaced by the merged record, same index, and saved |
| Store.RecordStore.DeleteRecord | scripts/state.js:64-72 | `true` exactly when some record has the id; then the first such is removed, the others keep their order; otherwise nothing changes |
| Store.RecordStore.ImportRecords | scripts/state.js:76-85 | the records become the imported list, the counter is recomputed, storage is written |
| Store.RecordStore.GetStats | scripts/state.js:94-113 | the dashboard figures of the current records |
| Store.RecordStore.LogReadingProgress | scripts/state.js:117-141 | unknown id or exceeded page count: `None`, nothing changes; otherwise the first match becomes the progress-logged record and is saved |
| Validators.TrimmedPattern | scripts/validators.js:3-4 | text the title and author pattern accepts is non-empty and has no white space at either end |
| Validators.NoDigits | scripts/validators.js:9 | `noNumbers` accepts exactly text with no character from `0` to `9` |
| Validators.HasDuplicateWord | scripts/validators.js:8 | a repeated word needs at least three characters: word, space, word |
| Validators.PagesPattern | scripts/validators.js:5 | text the pages pattern accepts is a non-empty run of digits |
| Validators.DatePattern | scripts/validators.js:6 | text the date pattern accepts is ten characters, with two-digit month and day |
| Validators.TagPattern | scripts/validators.js:7 | text the tag pattern accepts starts and ends with a letter |
| Validators.TrimmedPatternMeaning | scripts/validators.js:3-4 | the title and author pattern accepts exactly non-empty text without leading or trailing white space and without line breaks |
| Validators.NoSpaceNoDuplicate | scripts/validators.js:8 | text without white space never has a repeated word |
| Validators.DuplicateIgnoresCase | scripts/validators.js:8 | `The the` counts as a repeated word |
| Validators.PagesPatternIsNumeral | scripts/validators.js:5 | the pages pattern accepts exactly the numerals `String(n)` gives for non-negative integers |
| Validators.DatePatternMeaning | scripts/validators.js:6 | the date pattern accepts exactly four digits, a month 01-12 and a day 01-31, joined by hyphens |
| Validators.DateAcceptsImpossibleDay | scripts/validators.js:6 | `2025-02-31` passes: the day is not checked against the month |
| Validators.TagPatternMeaning | scripts/validators.js:7 | the tag pattern accepts exactly text that starts and ends with a letter and holds only letters, `-`, `&` and spaces |
| Validators.ValidateField | scripts/validators.js:15-50 | at most three messages; none for a field outside the five handled |
| Validators.TextFieldErrors | scripts/validators.js:19-31 | title or author: each of the three messages appears exactly when its rule is broken, at most once, in checking order |
| Validators.MissingTextField | scripts/validators.js:22-24 | a missing title or author gets only the white-space message |
| Validators.PagesFieldErrors | scripts/validators.js:32-36 | a page count passes exactly when it is a canonical numeral, else the one page-count message |
| Validators.PagesAcceptsEveryCount | scripts/validators.js:32-36 | every non-negative integer written out passes |
| Validators.DateFieldErrors | scripts/validators.js:37-41 | a date passes exactly when it has the month and day ranges above, else the one date message |
| Validators.TagFieldErrors | scripts/validators.js:42-46 | a tag passes exactly when it has the shape above, else the one tag message |
| Validators.Gather | scripts/validators.js:57-62 | a field is a key exactly when it is listed and its error list is non-empty, and its value is that list |
| Validators.ValidateRecord | scripts/validators.js:54-65 | keys only among the five fields; a field is a key exactly when it has errors, with those errors as value |
| Search.EscapeRegex | scripts/search.js:42-44 | the output is the input plus one character per special character |
| Search.EscapeRegexIsLiteral | scripts/search.js:42-44 | the output has no active operator, and reading each escape as its character gives back the query |
| Search.EscapeRegexPlain | scripts/search.js:42-44 | a query without special characters is unchanged |
| Search.FindFrom | scripts/search.js:11 | the first occurrence of the pattern at or after a position, or none |
| Search.Test | scripts/search.js:14-16 | `test` with the `g` flag: a hit exactly when the query occurs at or after `lastIndex`, which then moves to the end of the first such occurrence; a failure resets it to 0 |
| Search.TestFromStart | scripts/search.js:14 | from index 0, `test` succeeds exactly on texts containing the query |
| Search.Filter | scripts/search.js:13-17 | each record kept as often as it occurs when it matches, and never otherwise |
| Search.SearchRecords | scripts/search.js:3-22 | corrected search: the input for an empty query, otherwise exactly the records whose title, author or tag contains the query |
| Search.TestRecord | scripts/search.js:14-16 | a record passes the `||` chain only if it matches |
| Search.FilterAsWritten | scripts/search.js:13-17 | the written filter keeps only matching records, at most as often as they occur |
| Search.SearchRecordsAsWritten | scripts/search.js:3-22 | as written: the input for an empty query, otherwise a sub-multiset of it |
| Search.AsWrittenFindsNoMore | scripts/search.js:13-17 | every record the written search returns, the corrected one returns too |
| Search.SecondMatchMissed | scripts/search.js:9-16 | two books titled "Dune": as written only the first is found; corrected, both are |
| Search.HighlightFrom | scripts/search.js:35 | the rest of the text unchanged when the query no longer occurs, and at least thirteen characters longer when it does |
| Search.HighlightMatches | scripts/search.js:26-39 | the text itself for an empty query or text, and when the query does not occur; otherwise longer by at least the two tags |

## Left out

- Storage I/O (`loadData`, `saveData`, JSON): storage is the `saved` field, so a failing `localStorage` is not modelled.
- Clock values: `new Date().toISOString()` and `Date.now()` become one abstract `now` per operation. ISO formatting is not modelled, and neither are the two or three distinct instants of one call.
- `exportRecords`: pretty-printed JSON text is not modelled.
- A loaded record without an `id` makes the counter computation throw; the model's ids are always strings.
- `Math.max(...)` over a very large list overflows the call stack; the model has no such limit.
- Numbers are unbounded integers: the 2^53 precision limit of JavaScript numbers is not modelled.
- `Stats.TagKeys`: `Object.keys` lists integer-like keys (`"2024"`, say) first in ascending order; the model lists every tag in order of first appearance, so `InFirstAppearanceOrder` holds for the model only.
- `Text.Lower`: `toLowerCase` and the `i` flag are modelled for ASCII letters only; JavaScript also lowers non-ASCII letters (`É` to `é`), which the model leaves unchanged.
- The model's `<` on strings (`Text.LexLess`) compares Unicode scalar values where JavaScript compares UTF-16 code units, so characters outside the Basic Multilingual Plane may order differently.
- The `dateAdded` branch of `sortRecords` parses dates, which is not modelled.
- `Sorting.SortRecords`: the key of the string branch is the field's own text. A missing field, which the source turns into `"undefined"`, is not modelled because records always hold every field.
- `Records.ApplyUpdates`: updates cannot carry `id` or `createdAt`, although a caller could pass them and the spread would overwrite them.
- `Validators.ValidateField`: the value is a string or missing. Other JavaScript values (numbers, `null`) and their conversion by `RegExp.prototype.test` are not modelled.
- `Search.SearchRecords`: basic mode only. Advanced mode compiles the user's own regular expression, and its `catch` of invalid patterns is not modelled.
- `Search.Filter`: the contract states which records are kept and how many times, not that they keep their order.
- The `console.error` call of `searchRecords` is not modelled.
- `Store.RecordStore.Load`: the counter is the corrected `NextId`, not `Math.max(...) + 1` as at state.js:7. For stored ids such as `book-1` or `rec_-7` the source's counter is `NaN` or below 1 and the model's is 1; both behaviours are in the state.js:7 and state.js:35 rows of "## Findings". The contract ties the two counters where every suffix is a non-negative number.
- `Store.RecordStore.ImportRecords`: the same corrected counter replaces the `Math.max(...) + 1` of state.js:83, with the same consequences and the same Findings rows.
- `Stats.Favorite`: `tagCounts` is a plain object, so a tag that names an `Object.prototype` member (`constructor`, `toString`, `valueOf`, ...) starts from the inherited function, its count becomes a string and no `>` between it and a number count holds. Such tags can win without the greatest count; the model counts them like any other tag.
- `Records.LogProgress`: a `null` page count, as an imported record can carry, compares as 0 in `newPagesRead > record.pages` and rejects every positive count. The model has only a known or a missing page count, and a missing one never rejects.
- `Store.RecordStore.GetRecordById`: `getRecordById`, `addRecord` and `updateRecord` return the stored record object itself, and `getRecords` copies only the array, not the records in it. A caller that mutates a returned record changes the store without `saveData`. The model's records are values, so this aliasing is not captured.
- `Search.HighlightMatches`: the positions of the `<mark>` tags are not stated, only that the text changes exactly when the query occurs.

## Findings

| source | as written | input that shows it | evidently intended | confidence | as-written member | corrected member |
|---|---|---|---|---|---|---|
| scripts/state.js:7 | `Math.max` over `parseInt` of every suffix, so one id without a numeric suffix makes `nextId` `NaN` | the stored ids `["book-1"]`: `nextId` is `NaN`, and every later add creates `rec_0NaN` | skip suffixes that are not numbers; the counter is one past the largest numeric suffix, or 1 | high; not executed | RecordIds.NaNCounterRepeatsIds | RecordIds.NextIdIsFresh |
| scripts/state.js:35 | a negative largest suffix gives a counter of 0 or below, padded to ids such as `rec_00-6` | the stored id `rec_-7`: the counter is -6, and the id `rec_00-6` has the suffix 0 | the counter never drops below 1, so ids keep the `rec_` plus digits form | medium; not executed | RecordIds.NegativeCounterExample | RecordIds.SuffixOfFormatId |
| scripts/search.js:9-16 | a regular expression with the `g` flag serves every `test`, so a match leaves `lastIndex` after it for the next record's title | two records titled "Dune", query "Dune", case-sensitive: only the first is returned | every record whose title, author or tag contains the query, for example by leaving out the `g` flag | high; not executed | Search.SecondMatchMissed | Search.SearchRecords |
