# Media tracker: a Dafny model of the list logic of `script.js`

The media tracker keeps one global array of records, `allItems`. Each record
holds a title, category, status, rating, link, review, progress counters, an
id and a creation time. This project models the logic that changes that
array and the logic that decides what the list shows:

- **Record lifecycle** (`tracker.dfy`, module `Tracker`). The class
  `MediaList` holds `allItems` as a `seq<Record>`. It has four methods:
  - `QuickProgress` models `quickProgress`.
  - `HandleFormSubmit` models both branches of `handleFormSubmit`: create
    and edit.
  - `DeleteItem` models `deleteItem`.
  - `ImportData` models the replacing step of `importData`.

  `QuickProgress`, `HandleFormSubmit` and `DeleteItem` are each proved
  against a function of the old list: `Progressed`, `Submitted` or
  `Removed`. Lemmas about those functions state what changes and what is
  kept, and show that distinct ids stay distinct. `ImportData` states its
  new list directly: the backup, or the old list.
- **The query pipeline of `renderItems`** (`query.dfy`, module `Query`).
  - A status filter.
  - A search on the lower-cased title or its acronym, from `getAcronym`
    (`text.dfy`).
  - A stable sort by one of four modes (`sorting.dfy`): the method
    `SortInPlace` sorts an array in place.
  - A `groups` dictionary built by a loop (`GroupByCategory`).
  - The sections for Game, Anime, Manga and Movie, in that order.

  `RenderItems` is proved equal to the function `View`. Lemmas prove:
  - what the list contains;
  - the order of the sections;
  - that each section keeps the sort order.

  The dashboard counts of `updateDashboard` are modelled as `Dashboard`.
- **Support modules.**
  - `seqs.dfy` is `Array.prototype.filter` as an order-preserving
    subsequence.
  - `records.dfy` holds the record, the form values, `parseInt(x) || 0`,
    and `findIndex`.
  - `wrappers.dfy` holds `Option`.

The sort is modelled as a stable insertion sort. `Sorting.SortedStableIsUnique`
shows that any stable arrangement sorted by the same key is equal to it. So the
model does not depend on which algorithm the browser's `Array.prototype.sort`
uses, only on its being stable.

Three points of the code shape the model:

- **Acronym.** There is one initial per match of `\b\w`, that is, per
  maximal run of `[A-Za-z0-9_]`. So "Spider-Man" gives "sm".
- **Rating.** The form stores the rating as `parseInt(...)` with no
  `|| 0`, so a record's rating may be missing (`None`). Only the "best"
  sort treats a missing rating as 0.
- **Ids.** Ids are clock readings, and an imported backup is taken as it
  is, so nothing makes ids unique. Uniqueness is only a hypothesis of the
  lemmas that need it.

## Model

| member | source | states |
|---|---|---|
| `Seqs.Filter` | script.js:84-95 | the kept elements are elements of the input that pass the predicate, and every passing element is kept |
| `Seqs.FilterSelects` | script.js:84-95 | filtering keeps exactly the positions whose element passes, in increasing order |
| `Seqs.FilterConcat` | script.js:84-95 | filtering a concatenation is the concatenation of the filtered parts |
| `Seqs.FilterMultiset` | script.js:84-95 | each element is kept as often as it occurs when it passes, and never otherwise |
| `Text.Trim` | script.js:90 | the result is the slice of the input left after dropping whitespace at both ends; a non-empty result neither starts nor ends with whitespace |
| `Text.TrimIdempotent` | script.js:145 | trimming a trimmed string changes nothing |
| `Text.Lower` | script.js:90-92 | as `toLowerCase` on the search box (line 90), on the title (line 92) and in `getAcronym` (line 29), but for ASCII only: lower-cases the ASCII letters `A`–`Z` (each maps to its lower-case letter and none is left), keeps the length and leaves every other character as it is |
| `Text.Includes` | script.js:92 | true exactly when the term occurs in the string at some position |
| `Text.EmptyIncluded` | script.js:92 | the empty term occurs in every string |
| `Text.AcronymIsWordStartInitials` | script.js:26-30 | `Text.Acronym` (`getAcronym`) is the lower-cased characters at the positions where `\b\w` matches, left to right, and "" for an empty title |
| `Text.AcronymChars` | script.js:26-30 | the initials `Text.Initials` collects from any position are no more than the characters left and are only lower-case letters, digits and underscores |
| `Text.AcronymShape` | script.js:26-30 | the acronym of a title is no longer than the title and holds only lower-case letters, digits and underscores |
| `Text.AttackOnTitanAcronym` | script.js:26-30 | "Attack on Titan" has the acronym "aot" |
| `Records.EntryTrimmed` | script.js:145-157 | the title, link and review of the record `Records.Entry` builds from the form are already trimmed, so trimming them again changes nothing |
| `Records.FindIndex` | script.js:45 | returns the first position holding the id, or none when no record has it |
| `Sorting.SortByKeyPermutes` | script.js:98-103 | the stable sort `Sorting.SortByKey` returns a permutation of its input |
| `Sorting.SortByKeySorted` | script.js:98-103 | `Sorting.SortByKey` returns its input in non-decreasing key order |
| `Sorting.SortByKeyStable` | script.js:98-103 | `Sorting.SortByKey` keeps records with equal keys in their relative order |
| `Sorting.SortedStableIsUnique` | script.js:98-103 | any arrangement sorted by the key that keeps each key's records in input order is the sort's result |
| `Sorting.SortInPlace` | script.js:98 | sorting the array in place leaves it equal to the stable sort of its old contents |
| `Sorting.InsertLast` | script.js:98 | one insertion step places the next element into the sorted prefix and leaves the rest of the array alone |
| `Query.FilteredSelects` | script.js:84-95 | `Query.Filtered` (the status test `Query.StatusPasses`, the term `Query.SearchTerm` and the search `Query.SearchPasses`) is the subsequence of the records that pass both the status filter and the search, in their original order |
| `Query.EmptyTermMatches` | script.js:90-92 | an empty search term matches every record |
| `Query.AllWithBlankSearchKeepsEverything` | script.js:84-95 | the "All" filter with a blank search box keeps the whole list |
| `Query.StatusFilterWithBlankSearch` | script.js:85-88 | "Progress" keeps exactly the records with a positive total, and any other filter except "All" keeps exactly the records with that status |
| `Query.AcronymSearchExample` | script.js:90-92 | typing "AOT" finds "Attack on Titan": the term is "aot", it is in the acronym, and it is not a substring of the lower-cased title, so the match comes through the acronym alone (`Query.TitleLacksAot`) |
| `Query.SortedOrder` | script.js:97-103 | `Query.Sorted`, which sorts by the comparator's key `Query.SortKey`, returns a permutation of the filtered list: "best" gives ratings non-increasing with a missing rating as 0, "az" gives collation order, "oldest" gives ids non-decreasing, and any other mode gives ids non-increasing |
| `Query.GroupByCategory` | script.js:105-106 | a category is a key exactly when some record has it, and its list holds that category's records in sorted order |
| `Query.SortFiltered` | script.js:98-103 | copying the filtered records into an array and sorting it in place gives `Query.Sorted` |
| `Query.EmitSections` | script.js:108-109 | walking the fixed category order over a `groups` map that holds exactly each present category's records gives the sections of `Query.SectionsOf` |
| `Query.RenderItems` | script.js:84-109 | filtering, sorting the array in place, grouping and walking the fixed category order give exactly `Query.View` |
| `Query.SectionsCategories` | script.js:108-109 | the sections are the categories of the fixed order that have at least one record, in that order |
| `Query.SectionsContents` | script.js:105-114 | each section is non-empty and holds exactly its category's records |
| `Query.ViewMembership` | script.js:84-109 | a record is listed in `Query.View` exactly when it passes the filter and the search and its category is Game, Anime, Manga or Movie |
| `Query.SectionsSorted` | script.js:105-114 | inside each section the records keep the sort order |
| `Query.GroupingExample` | script.js:108-109 | a Manga record and a Game record give a Game section and then a Manga section |
| `Query.Dashboard` | script.js:52-55 | the total is the number of records, and the finished and to-do counts are non-negative and never add up to more than the total |
| `Query.DashboardMatchesFilters` | script.js:53-55 | the finished and to-do counts are the sizes of the "Completed" and "Planned" filters with a blank search box |
| `Tracker.Progressed` | script.js:37-50 | the length is unchanged and no field other than `currentProgress` changes |
| `Tracker.ProgressedUnchanged` | script.js:42-46 | a complete snapshot (`total > 0 && current >= total`) or an unknown id changes nothing |
| `Tracker.ProgressedChanges` | script.js:45-47 | otherwise the first record with the id gets progress `current + 1`, and every other record is unchanged |
| `Tracker.ProgressedKeepsIds` | script.js:47 | distinct ids stay distinct |
| `Tracker.Submitted` | script.js:144-174 | at most one record is added, and every existing record keeps its position, id and creation time |
| `Tracker.Edited` | script.js:160-165 | an edit keeps the length, and every record keeps its id and creation time |
| `Tracker.BlankTitleUnchanged` | script.js:145-146 | a title that is empty after trimming changes nothing |
| `Tracker.CreateAppends` | script.js:168-170 | a create appends exactly one record at the end, `Records.Entry` of the form with the given id and time, and leaves the earlier records unchanged and in order |
| `Tracker.EditReplaces` | script.js:159-165 | an edit replaces the first record with the id by `Records.Entry` of the form with that record's id and `createdAt`, so every other field takes the submitted value; no other record and not the length changes |
| `Tracker.EditUnknownUnchanged` | script.js:160-162 | an edit whose id does not parse, or that no record has, changes nothing |
| `Tracker.SubmittedKeepsIds` | script.js:159-170 | ids stay distinct through an edit, and through a create whose new id is fresh |
| `Tracker.Removed` | script.js:211 | no record with the id remains, and every remaining record was in the list |
| `Tracker.RemovedSelects` | script.js:211 | deletion removes exactly the records with the id, and the rest keep their relative order |
| `Tracker.RemovedAbsent` | script.js:211 | deleting an id that no record has leaves the list identical |
| `Tracker.RemovedOne` | script.js:211 | when ids are distinct, deleting a present id removes exactly one record |
| `Tracker.RemovedKeepsIds` | script.js:211 | deletion keeps distinct ids distinct |
| `Tracker.MediaList.constructor` | script.js:3 | the list starts empty |
| `Tracker.MediaList.QuickProgress` | script.js:37-50 | the new list is `Progressed` of the old one, with both numbers passed through `Records.Coerce` (an unparsable value becomes 0) |
| `Tracker.MediaList.HandleFormSubmit` | script.js:144-174 | the new list is `Submitted` of the old one |
| `Tracker.MediaList.DeleteItem` | script.js:209-214 | if confirmed, the new list is `Removed` of the old one; otherwise it is unchanged |
| `Tracker.MediaList.ImportData` | script.js:233-236 | a parsed backup that the user confirms replaces the list; otherwise the list is unchanged |

## Left out

- **DOM and HTML.** Reading form fields, building the list's HTML (script.js:80-82, 110-139), `startEditItem`, `cancelEdit`, `resetForm`, the filter buttons, the theme and `init` are all left out. Each form value, the search box, the sort mode and the edit mode are parameters instead.
- **Percent bar.** The floating-point percent of the progress bar (script.js:118) is a display value.
- Query.RenderItems: **star rating display.** Showing the rating as stars is left out with the rest of the HTML, and so is its failure. For a negative rating, `'⭐'.repeat(item.rating)` in the template at script.js:123 throws a `RangeError`. Only the sections appended before that record's section stay on the page (script.js:139), and the `updateDashboard` call after `renderItems` (script.js:16, 22) is not reached. So `Query.RenderItems` and `Query.ViewMembership` describe the page only when no listed record has a negative rating.
- **Storage.** `localStorage`, `JSON.parse` / `JSON.stringify`, `loadData`, `saveData` and `exportData` (script.js:8-23, 217-225) are browser I/O and library codecs.
- **Refresh after saving.** After each operation, `saveData` re-renders and refreshes the dashboard. `RenderItems` and `Dashboard` model what that shows, but no method calls them.
- **Import as a parameter.** In `ImportData`, the parsed backup is a parameter: `None` means no file was chosen or the file did not parse.
- **Import checks.** The model assumes a parsed backup is a list of well-formed records. The code assigns whatever `JSON.parse` returns.
- **Browser calls.** `FileReader`, `alert` and `confirm` are asynchronous or foreign calls. The user's answer to `confirm` is a `bool` parameter.
- **Dashboard animation.** `animateValue` (script.js:62-78) runs on timers. Only the three numbers it animates towards are modelled.
- **Clock values.** `generateId()` (`Date.now()`) and `new Date().toLocaleString()` read the clock. Both are parameters of `HandleFormSubmit`.
- **Collation.** `localeCompare` in the "az" sort mode is locale collation from a foreign library. It is a parameter `collation: string -> int`, which ranks titles; titles of equal rank count as ties.
- Text.Lower: `toLowerCase` is modelled for the ASCII letters `A`–`Z` only. Non-ASCII upper-case letters such as "É" are kept as they are, and the length never changes, whereas `toLowerCase` lower-cases them and can change the length ("İ" becomes two code units). So `Query.SearchTerm` and `Query.SearchPasses` ignore case only for ASCII letters: in the model a search for "É" does not find the title "élan", though the page (script.js:90-92) finds it.
- **Number parsing.** `parseInt` itself is not modelled. Its results come in as `Option<int>`, with `None` for `NaN`.
- **Mutable records.** Records are values. The code changes a record object in place (script.js:47), which could also change another array holding the same object. No such array outlives a call here, so nothing observable is lost.
- **Edit mode.** The page tracks whether it is editing in a global flag that `startEditItem` and `cancelEdit` set. The model takes that flag, with the edit-id field, as the `FormMode` parameter, and so leaves out how `handleFormSubmit` changes it. After every non-blank submit in edit mode the page calls `cancelEdit` (script.js:166) and leaves edit mode, even when no record has the edited id; a create calls `resetForm` (script.js:171) instead. After a blank title it returns first (script.js:146) and stays in edit mode.
- Query.RenderItems: **category keys.** `groups` is a plain object, so a category that names an inherited `Object.prototype` property (`constructor`, `toString`, `valueOf`, `__proto__`, …) finds a truthy inherited value at `groups[i.category]`. `groups[i.category].push(i)` (script.js:106) then throws a `TypeError`, after the list container was emptied (script.js:82). On such input the page shows no section at all, and the dashboard is not refreshed. The model's map has no inherited keys, so `Query.RenderItems`, `Query.GroupByCategory` and `Query.ViewMembership` describe the page only when no filtered record has such a category.
- Tracker.Progressed: **numbers.** Numbers are modelled as exact unbounded integers. JavaScript numbers are IEEE doubles: above 2^53, `current + 1` (script.js:47) can give `current` back, and `parseInt` of a very long numeral gives `Infinity`. Neither is modelled, so `Tracker.Progressed` and `Records.Coerce` hold only for values below 2^53.
