# data-viewer, modelled in Dafny

This project models the client-side core of data-viewer. data-viewer browses groups of files through a remote API. It shows CSV files as a searchable, paginated table whose rows the user marks by clicking. It shows other files as Obsidian-flavoured markdown.

The model covers these parts of the source:

- **The marking cycle** (`markings.dfy`). There are six marking types. Clicking a row moves it one step along a circular seven-state cycle, with "unmarked" as the seventh state. Each state has its own CSS class and label.
- **The row filter and the page arithmetic** (`csv_filters.dfy`). The search step runs when the trimmed query is non-empty, and then matches the lowercased, untrimmed query against each cell. The marking step then filters by marking type. `getPaginationInfo` and `paginateRows` do the page arithmetic.
- **The pagination control** (`pagination.dfy`). It decides which page buttons and ellipses appear, and what Previous and Next do.
- **The table body** (`data_table.dfy`). For each row it gives the key, the click index, the classes, the tooltip and the cells.
- **The CSV viewer component** (`csv_table.dfy`). It is a class whose fields are the component's React state. Its methods are the event handlers and the loop that builds the markings map. A render function computes the screen from the state.
- **The markdown rewrites** (`markdown.dfy`). `![[file]]` becomes `![file](enc(file))` and `==x==` becomes `<mark>x</mark>`. The audio-file test is here too.
- **The group list** (`groups.dfy`). This covers the recursive file count, the category badge, the display name and the name search.

`wrappers.dfy`, `seqs.dfy` and `text.dfy` state the JavaScript primitives the source relies on:

- Map lookup, as `Get`.
- `filter` with an index-aware callback.
- `slice`, which clamps out-of-range and negative bounds.
- `indexOf`, which returns -1 when the element is absent.
- `trim`, over the full JavaScript whitespace set.
- `includes`.
- `toLowerCase`.

### Behaviour of the source that the model keeps as written

- **The marking filter uses positions in the searched list.** `filterCSVRows` looks a row's marking up by its index in the list the search step returned. It does not use the row's index among all rows. With a blank query the two frames agree (`CsvFilters.BlankQueryMarkingFilter`). With a query they can differ (`CsvFilters.SearchShiftsMarkingFrame`). The design intent is that markings are always keyed by the original row index. The model follows the code.
- **Table rows are keyed by position in the filtered list.** `DataTable` keys and clicks a row as `startIndex + position`, where the position is in the filtered list. With no query and no marking filter, that is the row's index in the data (`CsvTable.UnfilteredIndicesAreRows`). After a search it is not (`CsvTable.SearchedIndexIsPosition`).
- **The current page can end up past the last page.** A click changes the markings but never moves the current page. Under a marking filter, the current page can therefore end up past the last one and show no rows (`CsvTable.ClickCanLeavePagePastEnd`). Its starting markings are the ones a successful fetch of k + 1 `marked` records loads (`CsvTable.MarkedUpToIsLoaded`). This happens at every page size the select offers.

## Model

| member | source | states |
|---|---|---|
| Markings.Next | src/lib/markings.ts:120-125 | The successor of a state is never the state itself. It is "unmarked" exactly after `favorite`. |
| Markings.IndexOfCycle | src/lib/markings.ts:122-123 | `indexOf` on the cycle array finds each state at the position it is written in. So the lookup never yields -1. |
| Markings.NextIsArrayLookup | src/lib/markings.ts:120-125 | The successor is what the source's lookup gives: the cycle array read at (`indexOf` + 1) mod its length, where `indexOf` is never -1. |
| Markings.IterateSteps | src/lib/markings.ts:120-125 | Zero clicks leave a state as it is. Each further click moves it one more successor on. |
| Markings.CycleOrder | src/lib/markings.ts:121 | The cycle, step by step: unmarked, marked, learned, reviewing, mastered, difficult, favorite, then unmarked again. |
| Markings.NextFollowsCycle | src/lib/markings.ts:122-124 | The successor of the entry at position k is the entry at (k + 1) mod 7. |
| Markings.IterateMoves | src/lib/markings.ts:120-125 | n successive clicks move a state n places along the cycle, modulo 7. |
| Markings.WholeRounds | src/lib/markings.ts:120-125 | Any multiple of seven clicks returns each state to itself. |
| Markings.NoShorterPeriod | src/lib/markings.ts:120-125 | Between one and six clicks never return a state to itself. |
| Markings.PeriodSeven | src/lib/markings.ts:120-125 | The cycle's period is exactly seven. |
| Markings.MarkingClass | src/lib/markings.ts:98-115 | A row gets the neutral hover class exactly when it is unmarked. |
| Markings.Colour | src/lib/markings.ts:98-111 | Definition: the colour word of each marking type in its classes. `Markings.ClassesDistinct` states what the classes guarantee. |
| Markings.Tint | src/lib/markings.ts:98-111 | Definition: the template shared by the six marked classes. `Markings.TintInjective` states that it is injective. |
| Markings.TintInjective | src/lib/markings.ts:100-112 | Different colours give different class strings. |
| Markings.ClassesDistinct | src/lib/markings.ts:98-115 | Different states always get different classes. |
| Markings.MarkingLabel | src/lib/markings.ts:130-140 | The label is "No mark" exactly for an unmarked row. |
| Markings.LabelsDistinct | src/lib/markings.ts:130-140 | Different states always get different labels. |
| Seqs.Filter | src/lib/csvFilters.ts:17-19 | `filter` never lengthens an array. |
| Seqs.Kept | src/lib/csvFilters.ts:24-27 | The kept positions are strictly increasing and in range. Position i is kept exactly when the callback accepts element i at index i. |
| Seqs.FilterSelectsKept | src/lib/csvFilters.ts:24-27 | The filtered array is the input read at the kept positions, in order. |
| Seqs.FilterKeepsAll | src/lib/csvFilters.ts:12-30 | A callback that accepts every element returns the array unchanged. |
| Seqs.SliceBound | src/components/CSVTable.tsx:75 | Definition of the built-in, not a derived property. It states how `slice` clamps one bound: a negative bound counts from the end, and a bound past the end stops at the end. |
| Seqs.Slice | src/components/CSVTable.tsx:75 | For ordered bounds of at least 0, `slice` is the sub-array between the bounds, each cut at the length. It never has more elements than the gap between the bounds. |
| Seqs.IndexOf | src/lib/markings.ts:122 | `indexOf` returns -1 exactly when the element is absent. Otherwise it returns its first position. |
| Text.LowerStr | src/lib/csvFilters.ts:16 | Definition of the built-in, not a derived property. Lower-casing keeps the length and maps each character through its ASCII lower-case form. |
| Text.Trim | src/lib/csvFilters.ts:15 | `trim` removes whitespace at both ends. The result is an infix of the input with no whitespace at either end. It is empty exactly when the input is all whitespace. |
| Text.Contains | src/lib/csvFilters.ts:18 | `includes` holds exactly when the needle occurs at some position. The empty needle always occurs. |
| Text.RunWithout | src/lib/markdown.ts:10 | The run of characters before the first stop character: none of them is the stop character, and the character after the run is. |
| CsvFilters.HasQuery | src/lib/csvFilters.ts:15 | Definition: the search runs when `searchQuery.trim()` is not empty. |
| CsvFilters.RowMatches | src/lib/csvFilters.ts:16-19 | Definition: some cell, lower-cased, contains the already lower-cased query. `CsvFilters.SearchKeepsMatchingRows` states what the search keeps. |
| CsvFilters.SearchKeep | src/lib/csvFilters.ts:17-19 | Definition: the search callback. It ignores the position it is given. |
| CsvFilters.MarkingKeep | src/lib/csvFilters.ts:24-27 | Definition: the marking callback, which reads the marking stored under the position it is given. `CsvFilters.MarkingKeepsMarkedPositions` states what it keeps. |
| CsvFilters.SearchStep | src/lib/csvFilters.ts:15-20 | A query that trims to empty keeps all rows. |
| CsvFilters.MarkingStep | src/lib/csvFilters.ts:23-28 | The filter `all` keeps all rows. |
| CsvFilters.FilterRows | src/lib/csvFilters.ts:6-31 | Filtering never adds rows. A blank query with filter `all` returns the rows unchanged. |
| CsvFilters.FilterRowsIsSubsequence | src/lib/csvFilters.ts:6-31 | The filtered rows are a subsequence of the input, in the original order. |
| CsvFilters.SearchKeepsMatchingRows | src/lib/csvFilters.ts:15-19 | A non-blank query keeps exactly the rows with a cell whose lowercase contains the lowercased, untrimmed query, in order. |
| CsvFilters.MarkingKeepsMarkedPositions | src/lib/csvFilters.ts:23-27 | A marking filter keeps exactly the rows whose position in its input carries that marking. Unmarked rows are dropped. |
| CsvFilters.BlankQueryMarkingFilter | src/lib/csvFilters.ts:15-27 | With a blank query, a marking filter keeps exactly the original rows that carry that marking, in order. |
| CsvFilters.SearchKeepsSecond | src/lib/csvFilters.ts:15-19 | A non-blank query that matches the second of two rows and not the first leaves only the second. |
| CsvFilters.SearchShiftsMarkingFrame | src/lib/csvFilters.ts:15-27 | When a search leaves only the second of two rows, the marking filter judges that row by the marking stored under position 0, which is the first row's. It keeps it when the first row carries the marking and drops it when only the second row does. |
| CsvFilters.CeilDiv | src/lib/csvFilters.ts:46 | `Math.ceil(n / k)` is the least page count whose pages hold n items. It is 0 exactly for no items. |
| CsvFilters.GetPaginationInfo | src/lib/csvFilters.ts:45-51 | `totalPages` is the ceiling of items over page size, and 0 exactly for no items. A page spans exactly `itemsPerPage` indices. From page 1 on, the start index is not negative. |
| CsvFilters.InfoCutsPage | src/lib/csvFilters.ts:36-51 | The start index is `(currentPage - 1) * itemsPerPage`. The slice between the start and end indices is exactly the page `paginateRows` cuts. |
| CsvFilters.EndIsNextStart | src/lib/csvFilters.ts:47-48 | The end index of one page is the start index of the next. |
| CsvFilters.PaginateRows | src/lib/csvFilters.ts:36-40 | A page holds at most `itemsPerPage` rows. From page 1 on, it is the rows between its start and end, each cut at the length. |
| CsvFilters.PageAfterLastIsEmpty | src/lib/csvFilters.ts:36-46 | A page past the last one holds no rows. |
| CsvFilters.PastLastPage | src/lib/csvFilters.ts:46-47 | A page beyond the last starts at or after the end of the rows. |
| CsvFilters.PagesArePrefix | src/lib/csvFilters.ts:36-40 | The first n pages together are the first n * itemsPerPage rows, cut at the length. |
| CsvFilters.PagesPartitionRows | src/lib/csvFilters.ts:36-51 | Pages 1 to `totalPages`, put together in order, give back exactly the rows. |
| CsvFilters.ThirdOfThreePages | src/lib/csvFilters.ts:45-51 | With 25 rows at 10 a page there are three pages. The third spans indices 20 to 30 and holds rows 20 to 24. |
| Pagination.ShowPage | src/components/csv/Pagination.tsx:52-56 | Definition of `showPage`. `Pagination.ButtonsExactly` states what it decides. |
| Pagination.ItemFor | src/components/csv/Pagination.tsx:52-63 | Definition of the map callback for one page. `Pagination.EllipsesExactly` and `Pagination.CurrentPageHighlighted` state what it returns. |
| Pagination.ItemsUpTo | src/components/csv/Pagination.tsx:52-63 | The items for pages 1 to n: each is the item its own page produces, they come in strictly increasing page order, and every page that produces an item has one. |
| Pagination.PageItems | src/components/csv/Pagination.tsx:51-63 | Definition: the items for pages 1 to `totalPages`. The bounds on them are `Pagination.EllipsesNotAdjacent` and `Pagination.AtMostSevenItems`. |
| Pagination.Render | src/components/csv/Pagination.tsx:25-89 | Nothing is rendered exactly when there are no pages. Previous is disabled exactly on page 1. Next is disabled exactly on the last page. |
| Pagination.GoToPrevious | src/components/csv/Pagination.tsx:27-31 | Previous asks for `currentPage - 1` exactly when the current page is above 1. |
| Pagination.GoToNext | src/components/csv/Pagination.tsx:33-37 | Next asks for `currentPage + 1` exactly when the current page is below the last. |
| Pagination.ArrowsStayInRange | src/components/csv/Pagination.tsx:27-45 | From a page in range, the arrows only ask for pages in range. Each arrow does nothing exactly when it is disabled. |
| Pagination.ButtonsExactly | src/components/csv/Pagination.tsx:52-56 | Page p has a button exactly when it is in range and is the first page, the last page, or within one of the current page. |
| Pagination.EllipsesExactly | src/components/csv/Pagination.tsx:58-62 | A hidden page shows an ellipsis exactly when it is two away from the current page. Any other hidden page shows nothing. |
| Pagination.CurrentPageHighlighted | src/components/csv/Pagination.tsx:68 | A button uses the `default` variant exactly when it is the current page's. |
| Pagination.EllipsesNotAdjacent | src/components/csv/Pagination.tsx:52-63 | No two consecutive items are both ellipses. |
| Pagination.AtMostTwoEllipses | src/components/csv/Pagination.tsx:58-61 | There are never three ellipses. |
| Pagination.IncreasingWithin | src/components/csv/Pagination.tsx:52 | A strictly increasing list of pages drawn from a set is no longer than the set. |
| Pagination.AtMostSevenItems | src/components/csv/Pagination.tsx:52-63 | At most seven items are rendered. `Pagination.AtMostTwoEllipses` bounds the ellipses among them at two. |
| DataTable.RowFor | src/components/csv/DataTable.tsx:31-41 | Definition of one table row. `DataTable.Render`, `DataTable.ClassShowsState` and `DataTable.TitleNamesNextState` state its key, classes and tooltip. |
| DataTable.Render | src/components/csv/DataTable.tsx:19-53 | One header cell per header. Row i of the page has index `startIndex + i`, which is its key and the index its click reports. It keeps its cells as they are, ragged or not. Its class is that of the marking stored under its index. |
| DataTable.IndicesDistinct | src/components/csv/DataTable.tsx:32-38 | The row indices strictly increase, so no two rows share a key. |
| DataTable.ClassShowsState | src/components/csv/DataTable.tsx:33-39 | Two rows have the same classes exactly when their indices carry the same marking state. |
| DataTable.TitleNamesNextState | src/components/csv/DataTable.tsx:41 | The tooltip is "Click to mark as " followed by the label of the state after the row's current one. |
| DataTable.TitleEnds | src/components/csv/DataTable.tsx:41 | An unmarked row offers "• Marked". A favourite offers "No mark". |
| CsvTable.OptionsArePageSizes | src/components/csv/ItemsPerPageSelect.tsx:15 | Every "Rows per page" option is a positive page size. |
| CsvTable.Click | src/components/CSVTable.tsx:106-114 | After a successful click the row holds the next state of the cycle, which is deleted after `favorite`. No other row changes. |
| CsvTable.ClickN | src/components/CSVTable.tsx:93-115 | Definition: n successful clicks on one row. `CsvTable.ClickNMoves` and `CsvTable.SevenClicks` state what they do. |
| CsvTable.ClickNMoves | src/components/CSVTable.tsx:93-115 | n clicks move the row n steps along the cycle and leave every other row alone. |
| CsvTable.SameLookups | src/components/CSVTable.tsx:106-114 | Two markings maps that agree on every lookup are the same map. |
| CsvTable.SevenClicks | src/components/CSVTable.tsx:93-115 | Seven successful clicks on a row give back the markings map exactly. |
| CsvTable.CallFor | src/components/CSVTable.tsx:98-110 | A click saves the next state when there is one and removes the marking otherwise. Either way the request names the state the click leaves. |
| CsvTable.MarkingsOf | src/components/CSVTable.tsx:38-41 | A row is in the map exactly when some fetched record names it. |
| CsvTable.LastRecordWins | src/components/CSVTable.tsx:39-41 | A row maps to the type of the last record that names it. |
| CsvTable.BuildMarkingsMap | src/components/CSVTable.tsx:38-41 | The `forEach` loop builds exactly `MarkingsOf` of the fetched records. |
| CsvTable.Render | src/components/CSVTable.tsx:53-170 | "No data" is shown exactly for empty data. |
| CsvTable.TableIsPage | src/components/CSVTable.tsx:61-75 | The rendered table is the table of `DataTable` for the page `paginateRows` cuts from the filtered rows, starting at `(currentPage - 1) * itemsPerPage`. |
| CsvTable.ShowsCurrentPage | src/components/CSVTable.tsx:61-75 | The headers are the first data row. The body is the current page of the filtered data rows, as `paginateRows` cuts it, with at most `itemsPerPage` rows. Row i has index `(currentPage - 1) * itemsPerPage + i`. |
| CsvTable.MessagesAndControls | src/components/CSVTable.tsx:143-166 | The no-results message shows exactly when nothing passes and the query is not empty. The controls show exactly when something passes, and then the pagination renders. The `showFilterInfo` prop passed to `Pagination` is true exactly when there is a query or a marking filter. |
| CsvTable.UnfilteredIndicesAreRows | src/components/CSVTable.tsx:61-75 | With a blank query and filter `all`, the row shown under index k is data row k. |
| CsvTable.SearchedIndexIsPosition | src/components/CSVTable.tsx:61-75 | When a search leaves only data row 1, that row is shown and clicked under index 0, its position in the search result, rather than its own index. |
| CsvTable.MarkedUpTo | src/components/CSVTable.tsx:93-163 | The starting markings of `CsvTable.ClickCanLeavePagePastEnd`: rows 0 to `last` are marked and no other row is, so its lookup gives `marked` exactly on those rows. `CsvTable.MarkedUpToIsLoaded` shows that loading can produce it. |
| CsvTable.AllMarkedRecords | src/components/CSVTable.tsx:37-41 | Definition: the fetched records that mark rows 0 to `last` in row order. |
| CsvTable.LoadOneMore | src/components/CSVTable.tsx:39-41 | One more fetched record sets its row on top of the map the earlier records built. |
| CsvTable.MarkedUpToIsLoaded | src/components/CSVTable.tsx:37-42 | The `forEach` over the records `AllMarkedRecords(last)` builds exactly `MarkedUpTo(last)`. A successful fetch of those records therefore leaves the component in that state (`CsvTable.CSVTable.LoadMarkings`). |
| CsvTable.AllMarkedKept | src/lib/csvFilters.ts:23-27 | With an empty query, when every data row is marked, the filter `marked` keeps them all. |
| CsvTable.LastMovedOnDropped | src/lib/csvFilters.ts:23-27 | With an empty query, when the last of the marked rows has moved on to `learned`, the filter `marked` keeps every row before it and drops it. |
| CsvTable.ClickCanLeavePagePastEnd | src/components/CSVTable.tsx:93-163 | For every page size k, including the offered 10, 25, 50 and 100: with k + 1 marked rows and the filter `marked`, page 2 shows only the row with index k. A click on it moves it out of the filter. Page 2 then lies past the last one and shows no rows, while the controls stay shown. |
| CsvTable.TitleNamesClickResult | src/components/csv/DataTable.tsx:41 | A shown row's tooltip names the state a successful click on that row leaves. |
| CsvTable.CSVTable.constructor | src/components/CSVTable.tsx:26-31 | The initial state is page 1, an empty query, no markings, loading, filter `all` and ten rows a page. |
| CsvTable.CSVTable.View | src/components/CSVTable.tsx:53-170 | Definition: the screen for the current state, which is `CsvTable.Render` of the fields. |
| CsvTable.CSVTable.LoadMarkings | src/components/CSVTable.tsx:34-48 | A successful fetch replaces the markings with the map built from the records. A failed fetch leaves them as they were. Loading ends either way. |
| CsvTable.CSVTable.HandleSearchChange | src/components/CSVTable.tsx:78-81 | Sets the query and returns to page 1. Everything else is unchanged. |
| CsvTable.CSVTable.HandleFilterChange | src/components/CSVTable.tsx:83-86 | Sets the marking filter and returns to page 1. Everything else is unchanged. |
| CsvTable.CSVTable.HandleItemsPerPageChange | src/components/CSVTable.tsx:88-91 | Sets the page size and returns to page 1. Everything else is unchanged. |
| CsvTable.CSVTable.HandlePageChange | src/components/CSVTable.tsx:163 | Sets the current page. Everything else is unchanged. |
| CsvTable.CSVTable.HandleRowClick | src/components/CSVTable.tsx:93-119 | Sends the save or removal for the next state. If it succeeded, the markings become the click's result. If it failed, they are left exactly as they were. |
| Markdown.Preprocess | src/lib/markdown.ts:6-19 | Definition of `preprocessMarkdown`: the embed rewrite, then the highlight rewrite on its output. `Markdown.PlainContentUnchanged`, `Markdown.EmbedRewritten` and `Markdown.HighlightRewritten` state what it does. |
| Markdown.Pass | src/lib/markdown.ts:10-16 | Definition of a global `replace` of one delimiter expression, scanning left to right and resuming after each match. `Markdown.PassCopiesPlainPrefix` and `Markdown.PassRewritesMatch` state what it does. |
| Markdown.Embed | src/lib/markdown.ts:10-13 | Definition: the embed replacement `![name](enc(name))`. |
| Markdown.Highlight | src/lib/markdown.ts:16 | Definition: the highlight replacement `<mark>text</mark>`. |
| Markdown.EmbedPass | src/lib/markdown.ts:10-13 | Definition: the embed rewrite. `Markdown.EmbedRewritten` states what it does. |
| Markdown.HighlightPass | src/lib/markdown.ts:16 | Definition: the highlight rewrite. `Markdown.HighlightRewritten` and `Markdown.EmptyHighlightKept` state what it does. |
| Markdown.MatchAt | src/lib/markdown.ts:10 | A match at the start of the text is recognised exactly for the one name length the regular expression accepts. |
| Markdown.PassCopiesHead | src/lib/markdown.ts:10-16 | Where no match starts, the first character is copied and the scan goes on at the next. |
| Markdown.NoMatchBeforeTail | src/lib/markdown.ts:10-16 | Dropping the first character keeps the other positions free of matches. |
| Markdown.PassCopiesPlainPrefix | src/lib/markdown.ts:10-16 | Text before any match is copied unchanged. |
| Markdown.PassAtMatch | src/lib/markdown.ts:10-16 | At a match, the scan emits the replacement for the name and resumes just after the two closing characters. |
| Markdown.MatchesName | src/lib/markdown.ts:10 | The expression matches the opening delimiter, a non-empty name without the stop character, and the stop character twice, with that name. |
| Markdown.PassRewritesMatch | src/lib/markdown.ts:10-16 | A match is replaced by the replacement for its name, and the scan resumes after it. |
| Markdown.NoMatchUnchanged | src/lib/markdown.ts:10-16 | Text in which the expression matches nowhere is returned unchanged. |
| Markdown.WithoutOpenNoMatch | src/lib/markdown.ts:10-16 | Text without the opening delimiter has no match. |
| Markdown.PlainContentUnchanged | src/lib/markdown.ts:6-19 | Content with no `![[` and no `==` comes out of `preprocessMarkdown` unchanged. |
| Markdown.EmbedRewritten | src/lib/markdown.ts:10-13 | `![[name]]`, for a non-empty name without `]`, becomes `![name](enc(name))`. |
| Markdown.HighlightRewritten | src/lib/markdown.ts:16 | `==text==`, for non-empty text without `=`, becomes `<mark>text</mark>`. |
| Markdown.EmptyHighlightKept | src/lib/markdown.ts:16 | `====` is not a highlight and is left as it is. |
| Markdown.Extension | src/lib/markdown.ts:25 | The extension is the suffix after the last `.`, with no `.` in it; with no `.` it is the whole name. |
| Markdown.ExtensionGrows | src/lib/markdown.ts:25 | A last character that is not a dot extends the extension of the name before it. |
| Markdown.NoDotWholeName | src/lib/markdown.ts:25 | A name without a dot is its own extension. |
| Markdown.AfterLastDot | src/lib/markdown.ts:25 | The extension is exactly the text after the last dot. |
| Markdown.IsAudioFile | src/lib/markdown.ts:24-28 | A file is audio exactly when its lower-cased extension is one of mp3, m4a, wav, ogg, aac, flac or webm. |
| Markdown.AudioExtensionShape | src/lib/markdown.ts:26 | Every audio extension in the list is non-empty and has no dot. |
| Markdown.AudioWithoutDot | src/lib/markdown.ts:24-28 | A name without a dot is audio exactly when, lower-cased, it is one of the audio extensions. |
| Markdown.EmptyExtensionNotAudio | src/lib/markdown.ts:27 | The empty name, and any name ending in a dot, is not audio. |
| Markdown.AudioByLastDot | src/lib/markdown.ts:24-28 | Only the text after the last dot is compared, in lower case. The name is audio exactly when that text, lower-cased, is one of the audio extensions. |
| Groups.FolderTotal | src/app/groups/page.tsx:86-92 | Definition: a folder's file total, its own files plus those of its sub-folders. `Groups.TotalsCountFiles` states what it counts. |
| Groups.ForestTotal | src/app/groups/page.tsx:86-92 | Definition: the file total of a list of folders. `Groups.ForestCountsFiles` states what it counts. |
| Groups.ForestCountsFiles | src/app/groups/page.tsx:86-92 | The file total of a list of folders is the number of files found under them at any depth. |
| Groups.TotalsCountFiles | src/app/groups/page.tsx:86-92 | The total of a folder, and of a list of folders, counts exactly the files of the flattened tree. |
| Groups.CountFolderFiles | src/app/groups/page.tsx:86-92 | The loop counts the folder's own files plus the files of every sub-folder, recursively. |
| Groups.CountFiles | src/app/groups/page.tsx:83-99 | The count is the number of files anywhere in the group. It is never below the root's file count, and equals it when there are no folders. |
| Groups.WithCount | src/app/groups/page.tsx:52-59 | A group's card count is its file count, or 0 when its structure could not be fetched. |
| Groups.BracketAtRun | src/app/groups/page.tsx:103 | Whether the category pattern matches at a position depends only on the run of non-`]` characters after the `[`. |
| Groups.FirstBracket | src/app/groups/page.tsx:103 | Finds the leftmost position where `\[([^\]]+)\]` matches, or reports that it matches nowhere. |
| Groups.Category | src/app/groups/page.tsx:102-105 | The category is empty exactly when the pattern matches nowhere. Otherwise it is the text captured by the leftmost match. |
| Groups.CategoryHasNoClosingBracket | src/app/groups/page.tsx:103 | A category never contains `]`. |
| Groups.TitledNameMatch | src/app/groups/page.tsx:103 | In "title[category]rest", with no `[` in the title, the bracket after the title matches and no match starts earlier. |
| Groups.CategoryOfTitledName | src/app/groups/page.tsx:102-105 | In "title[category]rest", with no `[` in the title, the category read back is `category`. |
| Groups.BeforeFirst | src/app/groups/page.tsx:171 | `split('[')[0]` is the longest prefix without `[`. |
| Groups.BeforeFirstAbsent | src/app/groups/page.tsx:171 | Splitting a string that has no `[` gives the whole string. |
| Groups.BeforeFirstOfTitledName | src/app/groups/page.tsx:171 | Splitting "title[rest" at `[` gives the title. |
| Groups.DisplayName | src/app/groups/page.tsx:171 | The display name never contains `[`. |
| Groups.DisplayNameWithoutBracket | src/app/groups/page.tsx:171 | A name without `[` is shown whole, trimmed. |
| Groups.DisplayNameOfTitledName | src/app/groups/page.tsx:171 | "title[rest" is shown as the trimmed title. |
| Groups.NameMatches | src/app/groups/page.tsx:75-80 | Definition: the lower-cased name contains the lower-cased query. |
| Groups.FilterGroups | src/app/groups/page.tsx:75-80 | Definition of the group filter. `Groups.FilterGroupsSelects` and `Groups.EmptyQueryKeepsAll` state what it keeps. |
| Groups.FilterGroupsSelects | src/app/groups/page.tsx:75-80 | The search keeps, in order, exactly the groups whose lower-cased name contains the lower-cased query. |
| Groups.EmptyQueryKeepsAll | src/app/groups/page.tsx:75-80 | An empty query keeps every group. |
| Groups.RenderGroups | src/app/groups/page.tsx:153-182 | "No groups found" shows exactly when no group passes. Otherwise there is one row per group, with its slug as key, its display name and its card count. The category pill shows exactly when the category is not empty, and then holds that category. |
| Wrappers.Get | src/components/CSVTable.tsx:94 | Definition of the built-in, not a derived property. `Map.get` returns a value exactly when the key is present, and then returns the stored value. |

## Left out

- src/lib/csv.ts is not part of this model. That is the file that parses CSV text into rows. The viewer receives `data` already parsed, and ragged rows are kept as they are.
- The HTTP calls `getFileMarkings`, `saveMarking` and `removeMarking`, and everything in `src/lib/api.ts`, are left out: they are network I/O and use a token from local storage. The outcome of each call is a parameter instead:
  - `LoadMarkings` receives the fetched records, or `None` for a failed fetch.
  - `HandleRowClick` receives whether the save or the removal succeeded.
  - `WithCount` receives the group structure, or `None` when it could not be fetched.
- Marking types outside the six are not modelled. The source never checks a fetched `marking_type` at runtime (src/components/CSVTable.tsx:38-41), but the model's marking type is a closed datatype. For a tag outside the six, the source shows the neutral class and "No mark" (src/lib/markings.ts:113, 138). Such a row never passes a marking filter. A click on it finds `indexOf` equal to -1, so the next state is `types[0]`, which is undefined, and the click removes the marking (src/lib/markings.ts:122-124, src/components/CSVTable.tsx:109-114). `Markings.NextIsArrayLookup`'s claim that `indexOf` is never -1 holds only for the six modelled types and "unmarked".
- Notes, ids and timestamps of a stored marking are not modelled: the viewer never reads them.
- Fetching the group list and card counts together (`Promise.all` in `src/app/groups/page.tsx:45-73`) is concurrent I/O and is left out. Only the per-group count and its fallback to 0 are modelled.
- Authentication, routing, logout and the loading screens hold no data logic and are left out.
- React scheduling is not modelled: `useEffect`, `useMemo` and re-rendering. Each handler is one atomic step. So the model does not capture the race between two clicks on one row in flight at the same time, where the second click reads the map as it was before the first one resolved.
- The `startIndex`, `endIndex`, `totalItems`, `totalBeforeFilter` and `showFilterInfo` props of `Pagination` are passed but never rendered. The first four are left out. The value of `showFilterInfo` is kept in the model (`CsvTable.MessagesAndControls`), but nothing on screen depends on it.
- Presentation components hold no decisions and are left out: `SearchBar`, `FilterDropdown`, `MarkingLegend`, `AudioPlayer`, `FileHeader` and `MarkdownContent`. From `ItemsPerPageSelect` only the option list is kept.
- Text.LowerStr: lower-cases ASCII letters only, whereas JavaScript's `toLowerCase` also maps non-ASCII letters.
- Markdown.Embed: `encodeURIComponent` is the parameter `enc`, and nothing is assumed about it.
- CsvTable.CSVTable.HandleItemsPerPageChange: requires a positive page size, because the select only offers 10, 25, 50 and 100 (`CsvTable.OptionsArePageSizes`). Other values are not modelled.
- CsvTable.CSVTable.HandlePageChange: requires a page of at least 1, because every caller in `Pagination` passes one. The model does not claim the page stays at or below the last page, since the source does not keep that (`CsvTable.ClickCanLeavePagePastEnd`).
