# Civic reports: a verified model of the report store

The system is a two-page browser demo. Citizens file civic complaints such as
garbage or potholes on one page. Admins triage them on the other page. Both
pages share one piece of state: the whole array of reports, kept as one JSON
value under one browser-storage key. Every handler loads the whole array,
edits it and writes the whole array back.

This project models that store and the logic around it in Dafny:

- `model.dfy` (module `Model`): the `Report` record, its three-valued `Status` and
  the optional `Location`.
- `text.dfy` (module `Text`): `String.prototype.trim` and the default string order
  of `Array.prototype.sort`, with their properties.
- `storage.dfy` (module `Storage`): the storage entry as a class whose one field is
  the stored value. `loadReports`, `saveReports` and `seedIfEmpty` are its methods.
- `citizen.dfy` (module `Citizen`): the submit handler's validation and append. The
  page's captured-photo and captured-position variables are fields of a class.
- `admin_views.dfy` (module `AdminViews`): what a refresh derives from the store.
  That is the category filter options, the per-category counts with the total,
  and the filtered table rows.
- `admin.dfy` (module `Admin`): the table's Assign, Close and Delete handler, the
  clear-all button and `refresh`, as methods of an admin-page class.

The stored value is `Option<seq<Report>>`. `None` stands for every value the
loader cannot use: no entry, an empty entry, or text that does not parse.
Things the page gets from outside the model are parameters:

- the fresh ids from `uid()`;
- the `Date.now()` reading;
- the photo data URL and the position;
- the answer to `confirm`.

Each state-changing method's `ensures` ties the new state to a pure function
of the old state (`Seeded`, `Submitted`, `ClickSave`). The lemmas state what
the code promises about those functions.

## Model

| member | source | states |
|---|---|---|
| `Text.Trim` | app.js:93-94 | the trimmed field starts and ends with a non-whitespace character, and is empty exactly when the field is all whitespace |
| `Text.TrimIsSlice` | app.js:93-94 | trim keeps one contiguous slice of the field and drops only whitespace around it |
| `Text.TrimIdempotent` | app.js:93-94 | trimming an already trimmed value changes nothing |
| `Text.StrLessIrreflexive` | app.js:135 | no category sorts before itself |
| `Text.StrLessAsymmetric` | app.js:135 | two categories are never each before the other |
| `Text.StrLessTransitive` | app.js:135 | the default sort order is transitive |
| `Text.StrLessTotal` | app.js:135 | any two different categories are ordered one way or the other |
| `Storage.ReportStorage.LoadReports` | app.js:11-17 | loading never fails: it returns the stored array when one is usable, else the empty array |
| `Storage.ReportStorage.SaveReports` | app.js:18-20 | saving overwrites the whole stored value with the given array |
| `Storage.SaveLoadRoundTrip` | app.js:11-20 | loading what was saved gives it back; saving what was loaded leaves a usable stored value as it was |
| `Storage.ReportStorage.SeedIfEmpty` | app.js:23-32 | an empty or unusable store gets exactly the two sample reports; any other store is left as it is |
| `Storage.SeedWritesSamples` | app.js:23-32 | the two seeded records are Garbage/"Overflowing bin"/Open and Pothole/"Large pothole"/Assigned, with the drawn ids |
| `Storage.SeedIdempotent` | app.js:23-32 | seeding twice equals seeding once, whatever ids and clock the second run draws |
| `Citizen.ValidSubmissionIff` | app.js:92-96 | a submission passes the guard exactly when a category is chosen and the title has a non-whitespace character |
| `Citizen.Submitted` | app.js:96-107 | a refused submission leaves the store unchanged; an accepted one keeps every earlier record in place and appends one Open report with the trimmed title and description, the captured photo and position, and the given id and time |
| `Citizen.CitizenPage.OnSubmit` | app.js:90-115 | the handler's store effect is `Submitted`; acceptance clears the captured photo and position, and refusal keeps them |
| `Citizen.SubmittedAllCount` | app.js:97-107 | after any series of submissions, the old records are a prefix and the length grows by the number of valid submissions |
| `Citizen.SeededThenSubmitted` | app.js:23-32 | from the seeded sample data, N valid submissions leave 2 + N reports |
| `Citizen.CitizenPage.constructor` | app.js:33-46 | page start-up seeds the store and starts with no photo and no position captured |
| `Citizen.CitizenPage.OnPhotoRead` | app.js:69-72 | a finished photo read sets the pending photo and nothing else |
| `Citizen.CitizenPage.OnLocationFound` | app.js:82-84 | a position fix sets the pending location and nothing else |
| `Citizen.CitizenPage.OnReset` | app.js:117-123 | reset forgets the captured photo and position |
| `AdminViews.InsertSorted` | app.js:135 | adding a category to a strictly sorted list keeps it strictly sorted and adds exactly that category |
| `AdminViews.SortedDistinct` | app.js:135 | the filter categories are strictly ascending and are exactly the categories present |
| `AdminViews.SortedUnique` | app.js:135 | only one strictly ascending list has a given set of elements, so the options are the sorted distinct categories |
| `AdminViews.StrictlySortedIsDistinct` | app.js:135 | a strictly ascending list has no duplicates |
| `AdminViews.FilterOptions` | app.js:133-137 | the options are "All" with the empty value, then one option per present category, ascending, each valued by its own text |
| `AdminViews.TableRows` | app.js:148-150 | an empty filter shows every record; any other filter shows exactly the records of that category, as many as the stats panel counts for it |
| `AdminViews.OfCategory` | app.js:150 | the filtered table holds exactly the records of that category |
| `AdminViews.OfCategoryAppend` | app.js:150 | filtering distributes over concatenation, so store order is kept |
| `AdminViews.OfCategorySingle` | app.js:150 | a single record is kept exactly when its category matches |
| `AdminViews.OfCategoryCount` | app.js:139-150 | the table filtered to a category has as many rows as the stats panel counts for it |
| `AdminViews.CountsAddUpToTotal` | app.js:139-146 | the per-category counts over distinct keys covering every category add up to the total |
| `AdminViews.RenderStats` | app.js:139-146 | one pass gives the total, distinct keys for exactly the present categories, each key's count, and counts that sum to the total |
| `Admin.FindIndex` | app.js:184 | the result is the first index with the id, or -1 exactly when no record has it |
| `Admin.SetStatusAt` | app.js:186-191 | only the status of the one record changes; length, order and every other record stay the same |
| `Admin.RemoveAt` | app.js:194 | exactly the one record goes; the others keep their relative order |
| `Admin.ClickSave` | app.js:179-196 | the handler saves nothing exactly when there is no row id, the id is unknown, the click misses the buttons, or Delete is declined |
| `Admin.StatusClickChangesOneStatus` | app.js:183-191 | Assign and Close set only the status of the first matching report, to Assigned or Closed |
| `Admin.DeleteClickRemovesOne` | app.js:184-194 | a confirmed Delete removes exactly the first matching report, so length goes down by one |
| `Admin.AssignReopensClosed` | app.js:186-188 | Assign checks no current status: a Closed report becomes Assigned |
| `Admin.SelectionAfterRefreshAsWritten` | app.js:133-137 | as written, the select's value after the options are rebuilt is the empty "All" value |
| `Admin.FilterIgnoredAsWritten` | app.js:163-168 | as written, the table always shows every report |
| `Admin.FilterIgnoredExample` | app.js:163-168 | on the sample data, choosing Pothole shows both reports as written, not just the pothole one |
| `Admin.KeptSelection` | app.js:163-168 | the selection kept across a refresh is the chosen value exactly when it is still an option, else "All" |
| `Admin.KeptSelectionFilters` | app.js:148-150 | with the selection kept, a present category shows exactly its reports, and a vanished one shows all |
| `Admin.SeedThenCloseScenario` | app.js:189-191 | seed, then Close the pothole: that report is Closed, the garbage one is untouched, and the counts are Garbage 1 and Pothole 1 |
| `Admin.AdminPage.constructor` | app.js:163-170 | page start-up seeds the store and shows it with "All" selected |
| `Admin.AdminPage.Refresh` | app.js:163-168 | afterwards the page shows the stored reports: the options, the stats and the rows for the kept selection |
| `Admin.AdminPage.OnFilterChange` | app.js:172 | a changed selection is followed by a refresh showing the store |
| `Admin.AdminPage.OnClearAll` | app.js:173-177 | a declined confirmation changes nothing; a confirmed one empties the store whatever it held, and the page shows the empty store |
| `Admin.AdminPage.OnTableClick` | app.js:179-196 | the store becomes what `ClickSave` says; when nothing is saved, neither the store nor the page changes |

## Left out

- HTML rendering is left out: table markup, the own-reports list with the newest first, status messages, number formatting and `form.reset()`. These are presentation. The model keeps what is shown (options, counts, rows), not how.
- Storage.ReportStorage.SaveReports: every write is modelled as succeeding. In the browser `setItem` throws when the storage quota is full (a large photo data URL can fill it alone) or storage is disabled, and `saveReports` does not catch it. A failed write then leaves the stored value and the citizen page's captured photo and position as they were, skips the rest of the handler, and at start-up ends the whole script. The model does not capture that path, so `Citizen.CitizenPage.OnSubmit` and the admin handlers promise a completed save.
- Browser storage and JSON are left out as foreign APIs. A stored text that parses to something other than an array is outside the model. For example, `null` makes `seedIfEmpty` throw.
- `uid()` and `Date.now()` are parameters. `seedIfEmpty` reads the clock once per sample record, so `SampleReports` takes two clock readings. Ids are not required to be unique. With a duplicate id, every handler acts on the first matching record, as the code does.
- The asynchronous photo read and location request are left out as callbacks; only their completion handlers are modelled. Latitude and longitude are opaque reals, never computed with.
- `confirm()` is a boolean parameter.
- Two tabs overwriting each other's whole-array writes is concurrency, which is out of scope.
- Text.StrLess: characters are compared by code point. JavaScript compares UTF-16 code units, and the two orders differ only for characters outside the Basic Multilingual Plane.
- AdminViews.RenderStats: the order of the keys is not promised. The body lists them in first-appearance order, while `Object.keys` would list integer-like category names first. Categories named like `Object.prototype` members (`toString`, `__proto__`) would be miscounted by the plain-object accumulator.
- Admin.AdminPage.Refresh: models the corrected refresh, which keeps the chosen category across the rebuild of the options. The code as written resets it; see Findings.
- The design intent that Assign is offered only for Open reports and that nothing reopens a Closed report is not modelled, because the code does not enforce it. Every row offers all three buttons, and the model follows the code (`Admin.AssignReopensClosed`).

## Findings

| source | as written | input that shows it | evidently intended | confidence | as-written member | corrected member |
|---|---|---|---|---|---|---|
| app.js:163-168 | `refresh` calls `populateFilterOptions`, which replaces the select's options and so selects the first option, "All", before `renderTable(filterCategory.value)` reads the value | the two sample reports; choose "Pothole" in the filter: the table shows both reports | the table shows only the reports of the chosen category, and keeps that choice across the refresh | high (standard select behaviour when its options are replaced); not executed | `Admin.FilterIgnoredExample` | `Admin.KeptSelectionFilters` |
