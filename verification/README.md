# Cross-page row selection of the artwork table

The application shows artworks from a paged REST API in a table. The user
can tick rows on several pages. A table widget only knows the rows of the
page it shows, so the component keeps its own set of selected artwork ids.
Each time the widget reports the full selection of the visible page, the
component reconciles that set with the report. Each time a page is shown,
the rows to display as ticked are derived again from the set.

This project models that bookkeeping as pure functions over immutable
values and proves what it guarantees:

- `records.dfy`, module `Records`: an artwork record (`id` plus a title
  standing for the display fields). `SomeHasId` is the `some(...)` id test.
  `VisibleSelection` is the `filter` that derives the ticked rows of a page.
- `selection.dfy`, module `Selection`: the reconciliation loop (`Toggle` is
  one iteration, `Reconcile` is the in-order walk over the page) and its
  properties. These are: page-local scoping, foreign ids ignored,
  idempotence, full deselect, independence of order and duplicates, the
  derived selection after a change, the selected count, and persistence
  across pages.
- `paging.dfy`, module `Paging`: `Math.floor(first / rows) + 1`, written
  with an explicit floor division because Dafny's `/` is Euclidean.
- `session.dfy`, module `Session`: the component state `State` (page records,
  total, loading flag, selected ids) and its transitions. These are mount,
  start and end of a page load, paginator move, and selection change. It
  also holds the two-pages-of-two scenario: select id 1, go to page 2,
  select id 3, come back, and only id 1 is shown ticked with two rows
  counted.

The HTTP request is not modelled. Its outcome is an input: an
`Option<ArtworkPage>` for one load, or a function from page number to such
an option for `OnPage` and `Mount`. `None` stands for a failure that throws
before any state is written: the request is rejected, or the body is not
JSON. `Mount` starts from `Session.Initial`, the state of
`src/App.tsx:11-15`: no rows, a total of 0, not loading, no ids selected.

The component stores `selectedArtworks` as state. It is written with the
raw report at `src/App.tsx:38`. The effect at `src/App.tsx:58-61` then
overwrites it with the filter, because line 50 always stores a new `Set`.
The model keeps only the settled value, `Session.SelectedArtworks`.

A failed load is not reported to any caller. The code only logs it and
ends `loading` (`src/App.tsx:24-28`).

The reported selection is a list, not a set. Only id membership is
tested, so order and duplicates do not matter. This is proved, not
assumed.

## Model

| member | source | states |
|---|---|---|
| `Records.SomeHasId` | src/App.tsx:43 | the scan answers true exactly when some element of the reported list carries the id |
| `Records.VisibleSelection` | src/App.tsx:59 | the derived rows are exactly the page's rows whose id is selected; all rows when all are selected, none when none is; never longer than the page |
| `Records.VisibleSelectionAppend` | src/App.tsx:59 | the filter keeps page order: filtering a concatenation is the concatenation of the filtered parts |
| `Records.VisibleSelectionAgree` | src/App.tsx:58-61 | the derived rows depend only on how the id set judges the page's own ids |
| `Selection.Toggle` | src/App.tsx:43-48 | one iteration puts the record's id in the set iff the report carries it, and leaves every other id as it was |
| `Selection.Reconcile` | src/App.tsx:41-49 | after the walk over the page, a page id is selected iff the report carries it; every other id keeps its previous membership |
| `Selection.ReconcileClosedForm` | src/App.tsx:41-49 | the result equals the ids off the page plus the page ids present in the report |
| `Selection.ReconcileIgnoresForeignIds` | src/App.tsx:42-45 | reported ids of records not on the page are neither added nor removed; nothing off the page is added |
| `Selection.ReconcileIdempotent` | src/App.tsx:42-49 | reporting the currently derived selection leaves the selected ids unchanged |
| `Selection.ReconcileTwice` | src/App.tsx:41-49 | reconciling twice with the same report equals reconciling once |
| `Selection.ReconcileFullDeselect` | src/App.tsx:42-49 | an empty report leaves exactly the previous ids minus the page's ids |
| `Selection.ReconcileSelectionOrderIrrelevant` | src/App.tsx:43 | two reports with the same ids, in any order and with any duplicates, give the same result |
| `Selection.ReconcilePageOrderIrrelevant` | src/App.tsx:42 | the order in which the page's records are visited does not matter |
| `Selection.VisibleAfterReconcile` | src/App.tsx:41-61 | after a change the derived rows are the page's rows, in page order, whose id some reported element carries |
| `Selection.ReconcileSize` | src/App.tsx:41-49 | the selected count is the number of ids kept off the page plus the number of page ids in the report |
| `Selection.CrossPagePersistence` | src/App.tsx:41-49 | a selection made on one page is unaffected by reconciling another page with no id in common |
| `Paging.FloorDiv` | src/App.tsx:32 | the quotient is the floor of the real quotient, for either sign of the divisor |
| `Paging.PageIndex` | src/App.tsx:32 | for a non-negative offset and a positive page size the page number is at least 1, equals offset / size + 1, and its page contains the offset |
| `Paging.PageIndexOfOffset` | src/App.tsx:31-33 | every offset inside page p, including the page's first offset, maps back to page p |
| `Session.SelectedArtworks` | src/App.tsx:58-61 | the rows shown ticked are exactly the loaded rows whose id is selected |
| `Session.BeginLoad` | src/App.tsx:18 | starting a load sets loading and changes nothing else |
| `Session.FinishLoad` | src/App.tsx:19-28 | a settled load ends loading and keeps the selected ids; it replaces rows and total on success and keeps them on failure |
| `Session.LoadArtworks` | src/App.tsx:17-29 | a whole load ends not loading and keeps the selected ids; on failure nothing else changes; on success rows and total become the response's, and the ticked rows are the new rows whose id is selected |
| `Session.OnPage` | src/App.tsx:31-34 | a paginator move loads the page numbered offset / size + 1 and keeps the selected ids |
| `Session.Mount` | src/App.tsx:53-55 | the first load starts from nothing selected and shows no ticked rows; on success it shows page 1's rows and total, on failure the table stays empty |
| `Session.SelectedCount` | src/App.tsx:68 | the "Selected Rows" count is the number of distinct ids ticked on the current page plus the number of ids selected on other pages; it is zero exactly when nothing is selected |
| `Session.SelectedCountAfterChange` | src/App.tsx:41-68 | after a selection change the count is the ids kept from other pages plus the page's ids the report carries |
| `Session.OnSelectionChange` | src/App.tsx:36-51 | a selection change touches only the selected ids: page ids follow the report, all other ids keep their membership |
| `Session.ShownAfterSelectionChange` | src/App.tsx:36-61 | after a change the table shows the page's rows, in order, that the report carried |
| `Session.SelectionChangeIdempotent` | src/App.tsx:36-61 | re-reporting what the table shows leaves the whole state unchanged |
| `Session.SelectionSurvivesLoad` | src/App.tsx:17-29 | a change made while a load is in flight applies to the old page, and the completed load shows the new rows whose ids are then selected |
| `Session.FailedLoadKeepsPage` | src/App.tsx:24-28 | a failed load keeps rows, total and ticked rows, and ends loading |
| `Session.ReturnToPageShowsEarlierSelection` | src/App.tsx:17-61 | select on page A, move to page B and select there, return to A: A shows what was selected on it |
| `Session.TwoPageScenario` | src/App.tsx:31-61 | the two-pages-of-two walk ends with ids {1, 3} selected, the record with id 1 shown ticked, and a count of 2 |

## Left out

- The `fetch` of a page and the JSON decoding (`src/App.tsx:20-21`) are network I/O. Their outcome is a parameter.
- `console.error` logging of a failed load (`src/App.tsx:25`).
- React state and effect scheduling. Overlapping `loadArtworks` calls, where the last response to arrive wins, are asynchronous concurrency. `LoadArtworks` models one load that no other load overlaps. `BeginLoad` and `FinishLoad` model a selection change made while a load is in flight.
- The transient value of `selectedArtworks` written at `src/App.tsx:38` is left out. The effect at lines 58-61 always replaces it.
- Rendering with `DataTable`, `Column` and `Panel` is left out, and so are sorting, the paginator UI, styles and the joined title string (`src/App.tsx:63-67` and `69-103`). The count at line 68 is modelled by `Session.SelectedCount`.
- Session.FinishLoad: does not model a response that decodes as JSON but lacks `pagination`. There `fetch` does not reject (it ignores the HTTP status), line 22 replaces the rows with `data.data` (possibly `undefined`), and line 23 then throws, so the total is kept. The model has only full success and a failure that writes nothing.
- `Paging.PageIndex`: does not model a page size of 0 or non-integer numbers. There JavaScript produces `Infinity` or `NaN` page numbers. The widget always passes a whole offset and 12 rows.
- Ids are unbounded integers. JavaScript numbers and `Set` equality on them are not modelled beyond equality of ids.
