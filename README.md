# Performance journal core, modelled in Dafny

The journal is a client-side activity log. Each record (`JournalEntry`) has an
id, a 1-based position number `no`, one of four fixed categories, free-text
details, start and end days, hours spent, an owner and a creation time. All
records live in one ordered collection in browser storage.

This project models the logic around that collection:

- `journal.dfy` (module `Journal`): the four categories and their canonical
  order, the category colour tokens, and the record type.
- `storage.dfy` (module `Storage`): the entry store. The class `EntryStore`
  holds the stored collection in its field `entries`. Its methods `Add`,
  `Update` and `Delete` are `addEntry`, `updateEntry` and `deleteEntry`. Each
  method builds the new collection with a pure function (`Updated`, `Deleted`)
  about which the lemmas are proved. The main invariant is `Numbered`: the `no`
  values are exactly 1..N in stored order.
- `export.dfy` (module `Export`): the CSV text of an export and the download
  file name. Cells are escaped as rules 6 and 7 of section 2 of RFC 4180
  describe. The module also contains a small RFC 4180 reader (`ReadRecords`).
  `CsvRoundTrip` proves that the exported text reads back as the header
  followed by exactly the cells of every entry.
- `summary.dfy` (module `Summary`): the per-category counts and hours, the two
  totals, the bar widths and the count label of the summary panel.
- `entry_form.dfy` (module `EntryForm`): the form schema as an acceptance
  predicate, the per-field issues, and the record the form submits.
- `dates.dfy` (module `Dates`): calendar days and their `yyyy-MM-dd` text,
  with a reader that proves the rendering loses nothing.
- `wrappers.dfy` (module `Wrappers`): `Option`.

Hours are `real`, so all sums are exact. Ids and creation times are
parameters of `Add`, standing for `crypto.randomUUID()` and
`new Date().toISOString()`. The caller-facing `Add` has no precondition.
Where a property needs a fresh id, such as unique ids after `Add`, it takes
`id !in Ids(entries)` as a hypothesis.

Behaviour of the code that the model keeps as written, although a reader might
expect otherwise:

- `updateEntry` merges an arbitrary partial record. An update that supplies
  `id`, `no` or `createdAt` overwrites it. The numbering and unique ids are
  therefore not class invariants. `Update` keeps them only when the update
  omits those fields (`UpdateKeepsInvariants`, `RunKeepsNumbered`).
- `deleteEntry` removes every entry with the id, and it renumbers even when no
  entry has the id.
- The CSV rows are separated by a bare line feed, not CR LF. The text has no
  trailing line break. A lone carriage return does not cause quoting.

## Model

| member | source | states |
|---|---|---|
| `Journal.CategoryName` | src/types/journal.ts:1-5 | every category has a non-empty name, and that name reads back as the category |
| `Journal.ParseCategorySound` | src/types/journal.ts:1-5 | a text is recognised as a category only if it is that category's name |
| `Journal.ParseCategoryExactlyNames` | src/components/journal/EntryForm.tsx:17 | a text is accepted as a category iff it is one of the four names |
| `Journal.CategoryNameInjective` | src/types/journal.ts:1-5 | distinct categories have distinct names |
| `Journal.CategoriesListEachOnce` | src/types/journal.ts:19-24 | the canonical order has four entries, lists every category, and lists none twice |
| `Journal.CategoryColor` | src/types/journal.ts:26-34 | every colour token is a `category-` token |
| `Journal.CategoryColorInjective` | src/types/journal.ts:26-34 | distinct categories get distinct colour tokens |
| `Dates.FormatDateShape` | src/components/journal/EntryForm.tsx:58-59 | a rendered day is digits with dashes at exactly two places, and is ten characters for years below 10000 |
| `Dates.FormatDate` | src/components/journal/EntryForm.tsx:58-59 | reading the `yyyy-MM-dd` rendering of a valid day (year 1 or later) gives the day back, so distinct days get distinct texts |
| `Storage.Load` | src/utils/storage.ts:5-13 | a missing or unparseable blob reads as the empty collection |
| `Storage.NewEntry` | src/utils/storage.ts:25-30 | a new entry carries the caller's fields unchanged, plus the given id, number and creation time |
| `Storage.AppendKeepsNumbered` | src/utils/storage.ts:28-31 | appending the entry numbered old length + 1 keeps the numbers 1..N |
| `Storage.AppendKeepsUniqueIds` | src/utils/storage.ts:27-31 | appending an entry with an unused id keeps the ids unique and adds exactly that id |
| `Storage.Merge` | src/utils/storage.ts:38 | supplied fields replace the entry's and omitted fields keep them; `id`, `no` and `createdAt` survive iff omitted |
| `Storage.MergeNeutralAndIdempotent` | src/utils/storage.ts:38 | merging nothing is the identity, and merging an update twice equals merging it once |
| `Storage.MergeCompose` | src/utils/storage.ts:38 | merging `u` and then `v` equals merging their combination, where later fields win |
| `Storage.Updated` | src/utils/storage.ts:37-39 | the length is kept; entries with another id are untouched; entries with the id get the update merged in place |
| `Storage.UpdatedCompose` | src/utils/storage.ts:35-40 | two updates of one id equal one combined update, unless the first moves the entry to another id |
| `Storage.UpdateAbsentIsNoOp` | src/utils/storage.ts:37-40 | updating an id that is not present leaves the collection unchanged |
| `Storage.UpdateKeepsInvariants` | src/utils/storage.ts:35-40 | an update without `no` keeps the numbering; one without `id` keeps the id set and uniqueness; one without all three protected fields keeps them on every entry |
| `Storage.Without` | src/utils/storage.ts:45 | the result holds exactly the entries whose id differs, and is no longer than the input |
| `Storage.WithoutRemovesId` | src/utils/storage.ts:45 | no surviving entry has the id, and the id set loses exactly that id |
| `Storage.WithoutConcat` | src/utils/storage.ts:45 | the filter distributes over concatenation, so survivors keep their relative order |
| `Storage.WithoutAbsent` | src/utils/storage.ts:45 | filtering an id that is not present gives back the collection |
| `Storage.WithoutUniqueLength` | src/utils/storage.ts:45 | with unique ids, deleting a present id removes exactly one entry |
| `Storage.WithoutKeepsUnique` | src/utils/storage.ts:45 | filtering out an id never introduces a duplicate id |
| `Storage.Renumbered` | src/utils/storage.ts:47-50 | the numbers become 1..N in order and every other field is unchanged |
| `Storage.RenumberedKeepsIds` | src/utils/storage.ts:47-50 | renumbering keeps the id set and uniqueness, and leaves an already numbered collection as it is |
| `Storage.Deleted` | src/utils/storage.ts:43-51 | after a delete the survivors are exactly the entries the filter keeps, in their old order, with only `no` changed; the numbers are 1..N, the id is gone, every other id is still present, and unique ids stay unique |
| `Storage.RunKeepsNumbered` | src/utils/storage.ts:23-52 | any run of adds, deletes and `no`-free updates, started from a numbered collection, ends numbered 1..N |
| `Storage.EntryStore.Open` | src/utils/storage.ts:5-13 | the store starts with whatever the storage key holds, or empty |
| `Storage.EntryStore.Add` | src/utils/storage.ts:23-33 | returns the caller's fields with the given id and creation time and `no` = old length + 1; appends it; keeps the numbering, and keeps ids unique when the id is fresh |
| `Storage.EntryStore.Update` | src/utils/storage.ts:35-41 | the new collection is `Updated(old, id, u)`; it is unchanged for an absent id; the numbering is kept when `no` is omitted, and unique ids when `id` is omitted |
| `Storage.EntryStore.Delete` | src/utils/storage.ts:43-52 | the new collection is `Deleted(old, id)`: the filtered entries in their old order with only `no` changed, numbered 1..N and without the id; unique ids stay unique; an absent id only renumbers; with unique ids a present id removes one entry |
| `Export.DoubleQuotes` | src/utils/export.ts:31 | the result contains exactly the characters of the text and is never shorter than it |
| `Export.HalveDoubleQuotes` | src/utils/export.ts:31 | halving the doubled quotes gives back the text, so doubling loses nothing |
| `Export.EscapeCell` | src/utils/export.ts:30-32 | a cell ends up enclosed in quotes iff it contains a comma, a double quote or a line feed; an unquoted cell is verbatim |
| `Export.EscapeCellExamples` | src/utils/export.ts:30-32 | a comma or a line feed forces quotes, inner quotes are doubled, and a lone carriage return is left unquoted |
| `Export.UnescapeEscapeCell` | src/utils/export.ts:30-32 | stripping the outer quotes and halving the doubled quotes gives back the original cell |
| `Export.IntToString` | src/utils/export.ts:28 | an integer cell is the decimal digits of the number's value with no leading zero (just `0` for zero), after a minus sign exactly when it is negative |
| `Export.RowCells` | src/utils/export.ts:14-22 | a data row has one cell per column title |
| `Export.HeaderLineText` | src/utils/export.ts:4-12 | the header line is the seven column titles `No`, `Category`, `Activity Details`, `Activity Start`, `Activity End`, `Hours Spent`, `Activity Owner`, in that order, separated by commas |
| `Export.HeaderLine` | src/utils/export.ts:25 | the header line contains no line feed, so it is one line of the file |
| `Export.HeaderCellsPlain` | src/utils/export.ts:4-12 | no column title needs quoting |
| `Export.CsvContent` | src/utils/export.ts:24-35 | the text is the header line alone for no entries, and otherwise the header line, a line feed, and the data lines joined by line feeds |
| `Export.ReadEscapedCell` | src/utils/export.ts:30-32 | an RFC 4180 reader reads an escaped cell back as the original cell, stopping at the following separator |
| `Export.ReadEncodedRecord` | src/utils/export.ts:27-33 | a row of escaped cells joined by commas reads back as exactly those cells |
| `Export.CsvRoundTrip` | src/utils/export.ts:14-35 | the exported text reads back as the column titles followed by exactly the seven cells of each entry, in order |
| `Export.DatePart` | src/utils/export.ts:42 | the date part is the longest prefix without a `T`, followed in the timestamp by a `T` when shorter |
| `Export.FileName` | src/utils/export.ts:42 | the name is `performance-journal-`, then exactly the given day text, then `.csv` |
| `Export.DatePartOfTimestamp` | src/utils/export.ts:42 | for a timestamp `yyyy-MM-dd` + `T` + time, the file name is `performance-journal-` + that day + `.csv` |
| `Summary.InCategory` | src/components/journal/Summary.tsx:11 | the filter keeps exactly the entries of the category |
| `Summary.InCategoryMultiset` | src/components/journal/Summary.tsx:11-14 | every entry of the category is kept as often as it occurs, so a row's count is the number of entries of its category |
| `Summary.SumHours` | src/components/journal/Summary.tsx:15 | the sum of no entries is 0, and a sum of entries without negative hours is not negative |
| `Summary.CategoryRow` | src/components/journal/Summary.tsx:11-17 | the row carries its category and colour token, counts no more entries than there are, and without negative hours its hours lie between 0 and the hours of all entries |
| `Summary.Summarize` | src/components/journal/Summary.tsx:10-18 | one row per category in canonical order, each with its colour token, the number of entries of that category and their hours; zero-count categories are kept |
| `Summary.TotalHours` | src/components/journal/Summary.tsx:20 | the total of no rows is 0; without negative rows it is not negative and at least every row's hours |
| `Summary.TotalActivities` | src/components/journal/Summary.tsx:21 | the total of no rows is 0, and it is at least every row's count |
| `Summary.CategoriesPartitionCount` | src/components/journal/Summary.tsx:10-14 | the four category counts add up to the number of entries |
| `Summary.CategoriesPartitionHours` | src/components/journal/Summary.tsx:10-15 | the four category hour sums add up to the hours of all entries |
| `Summary.TotalActivitiesIsEntryCount` | src/components/journal/Summary.tsx:21 | the activity total equals the number of entries |
| `Summary.TotalHoursIsEntryHours` | src/components/journal/Summary.tsx:20 | the hours total equals the sum of every entry's hours |
| `Summary.EmptySummary` | src/components/journal/Summary.tsx:10-21 | with no entries there are still four rows, all zero, and both totals are zero |
| `Summary.BarWidth` | src/components/journal/Summary.tsx:68 | the width is 0 when the total is not positive; otherwise width times total equals hours times 100 |
| `Summary.BarWidthsFillTheBar` | src/components/journal/Summary.tsx:68 | with no negative hours every bar is 0..100 percent, and with a positive total the four bars add up to 100 |
| `Summary.CountLabel` | src/components/journal/Summary.tsx:61 | the label is "activity" iff the count is 1, and "activities" otherwise |
| `EntryForm.Issues` | src/components/journal/EntryForm.tsx:16-26 | the fields with an issue are exactly the fields whose own rule fails, plus the end day when it is before the start day |
| `EntryForm.Accepts` | src/components/journal/EntryForm.tsx:16-26 | the values are accepted iff every field passes its own rule and the end day is not before the start day |
| `EntryForm.AcceptsIffNoIssues` | src/components/journal/EntryForm.tsx:16-26 | the values are accepted iff no field has an issue |
| `EntryForm.FieldBoundaries` | src/components/journal/EntryForm.tsx:18-22 | details of 500 characters pass and of 0 or 501 do not; 0.1 hours pass and less does not; missing hours or an empty owner do not |
| `EntryForm.BlankOwnerAccepted` | src/components/journal/EntryForm.tsx:22 | a whitespace-only owner is accepted, because nothing trims it |
| `EntryForm.EndBeforeStartRejected` | src/components/journal/EntryForm.tsx:23-26 | an end day before the start day is rejected, with the issue on the end day |
| `EntryForm.DefaultValuesRejected` | src/components/journal/EntryForm.tsx:46-51 | the initial values are rejected, with issues on exactly the details, the two days and the owner |
| `EntryForm.Submit` | src/components/journal/EntryForm.tsx:54-62 | something is submitted iff the values are accepted; it copies category, details, hours and owner, renders both days as `yyyy-MM-dd`, meets every field rule, and its day texts read back as the days picked |

## Left out

- Browser storage itself is not modelled: `localStorage`, JSON serialisation and `console.error`. The stored collection is the field `EntryStore.entries`. A blob that parses as JSON but is not an array of entries is outside the model. An empty string counts as `Absent`.
- Write failures in `saveEntries`, such as an exceeded quota, are not modelled. There, the stored collection would stay as it was while `addEntry` still returned the new entry.
- `crypto.randomUUID()` and `new Date().toISOString()` are parameters of `Add`. Nothing forces the id to be fresh. The model also does not track ids across deletions, so it does not state that ids are never reused.
- Storage.EntryUpdate: a field is either supplied or omitted. An explicit `undefined` value, which object spread would copy over the entry's field, is not modelled.
- Export.RowCells: JavaScript's `String(number)` for the hours is a parameter `showHours`. The position number is rendered as an integer in decimal.
- The Blob, the object URL and the anchor click that start the download are browser I/O.
- Floating-point behaviour is not modelled: rounding of the sums, `toFixed(1)` in the panel, and the `%` text of the bar width. All hours are exact reals.
- Summary: the order in which `reduce` accumulates does not matter over the reals, so the sums run from the front.
- EntryForm.Issues: the library reports issues in its own way, which is not modelled. For example, the cross-field date rule may not run when another field fails to parse. `Issues` lists each failing rule independently. Only the acceptance decision, `Accepts`, is exact.
- Dates: a picked day before year 1 is left out (`ValidDate` requires year 1 or later), because date-fns writes such years with a different year number.
- EntryForm: string lengths count characters, while the library counts UTF-16 code units. Dates are calendar days; the time of day and the time zone of the picked dates are not modelled. `form.reset()` and the `PPP` display format are left out.
- Filtering, search and the distinct-owner list are not part of this model. They are not implemented in any of the source files modelled here. Filters.tsx holds only a display predicate, and EntriesTable.tsx and src/pages/Index.tsx are presentation.
