# Life-history grid — a Dafny model

The application shows a person's life as a grid: 10 decades, each of 10
years, each of 12 months. Every month of the grid starts with one placeholder
event, and events can be dragged between months. This project models the pure
core of that:

- `LifeHistory.Initiate` — the fixed 10 x 10 x 12 tree that
  `LifeHistory.initiate` builds, each month starting with one placeholder
  event whose id is the month id;
- `LifeHistory.MoveEvent` — the two-pass tree rewrite of
  `LifeHistory.moveEvent`: the decade and year are computed from the month id
  (`floor(n/12/10)+1`, `floor(n/12)+1`), the event is filtered out of the
  source month by id and then appended, unchanged, to the target month;
- the event predicates `isLifeHistoryTextEvent` / `isLifeHistoryImageEvent`;
- `getTimeUnitOptions` (the cell units offered for a span) and the
  `generateGrid` helper of the app component (the numbered cells of the view).

Modules: `Wrappers` (Option), `Decimal` (`String(n)` and `Number(s)` for
natural numbers), `LifeHistory` (data model and both operations),
`LifeHistoryProperties` (what they promise), `Units` (the `LifeUnit` and
`TimeUnit` types), `TimeUnitOptions`, `GridCells`.

Modelling decisions:

- Every id (decade, year, month, event) is a `nat`. The source stores ids as
  `String(n)` and reads a month id back with `Number(...)`;
  `Decimal.ParseDecimalString` proves that round trip is the identity and
  `Decimal.DecimalStringInjective` that string equality of ids (the `!==` of
  the filter) is equality of the numbers. Only equality is claimed: string
  order and number order differ ("10" < "9").
- A field an event may lack (`event_text`, `event_image`) is an `Option`;
  `Boolean(s)` on a string is "non-empty".
- `moveEvent` is written as one pass, `EditPass`, used twice: first with
  `Remove(event.id)` on the source month, then with `Append(event)` on the
  target month. The `.map` calls become sequence comprehensions; every node
  not on the path is returned as it is.
- Properties of a move are stated for any grid whose months sit in the
  decade and year their ids point to (`Consistent`), and proved to hold for
  the grid `Initiate` builds (`InitiateConsistent`). On such grids a move
  changes each month exactly as the per-month reference
  `LifeHistoryProperties.MovedMonth` says.
- `initiate` takes no arguments: the birth date its caller passes
  (src/components/LifeHistory.tsx:47) is ignored, and every id is `String`
  of index arithmetic. `moveEvent` appends the event unchanged and has no
  error path.

## Model

| member | source | states |
|---|---|---|
| Decimal.DecimalString | src/domain/LifeHistory.ts:81-88 | `String(n)` of a natural number is a non-empty string of decimal digits with no leading zero |
| Decimal.ParseDecimalString | src/domain/LifeHistory.ts:114-118 | `Number(String(n)) == n`: reading a month id back gives the number it was made from |
| Decimal.ParseDecimal | src/domain/LifeHistory.ts:114-118 | `Number(s)` of a k-digit string is below 10^k (the empty string reads as 0); its inverse property is `ParseDecimalString` |
| Decimal.DecimalStringInjective | src/domain/LifeHistory.ts:81-85 | distinct numbers give distinct id strings, so string equality (`!==`) of ids is equality of the numbers |
| LifeHistory.PlaceholderEvent | src/domain/LifeHistory.ts:83-92 | the event a fresh month starts with has the month's id and is both a text event and an image event |
| LifeHistory.Initiate | src/domain/LifeHistory.ts:68-98 | the fresh grid has 10 decades, each of 10 years, each of 12 months |
| LifeHistory.Without | src/domain/LifeHistory.ts:134-136 | filtering by id drops exactly the events with that id (each other event keeps its multiplicity), never lengthens the list, and is the identity when no event has the id |
| LifeHistory.EditPass | src/domain/LifeHistory.ts:120-142 | one pass keeps the shape (ids, numbers, counts, order), leaves every decade, year and month off the computed path as it is, and edits the month on the path |
| LifeHistory.MoveEvent | src/domain/LifeHistory.ts:99-162 | a move keeps the shape and returns every decade, year and month that is on neither the source nor the target path unchanged |
| LifeHistory.YearOf | src/domain/LifeHistory.ts:115-118 | `floor(n/12)+1` is the year number r with (r-1)*12 <= n < r*12; `IdArithmeticInverse` states it inverts the construction |
| LifeHistory.DecadeOf | src/domain/LifeHistory.ts:114-117 | `floor(n/12/10)+1` is the decade number r with (r-1)*120 <= n < r*120, and it is the decade of the year `YearOf(n)` |
| LifeHistoryProperties.InitiateAt | src/domain/LifeHistory.ts:69-92 | decade d has id d and number d+1; its year y has id 10d+y and number 10d+y+1; its month m has id (10d+y)*12+m, number m+1 and the single placeholder event with that id |
| LifeHistoryProperties.InitiateShape | src/domain/LifeHistory.ts:69-78 | 10 decades numbered 1..10 in order, 10 years each, 12 months each |
| LifeHistoryProperties.InitiateYearsInOrder | src/domain/LifeHistory.ts:73-77 | read across the grid, year numbers run 1..100 with no gap and year ids 0..99 |
| LifeHistoryProperties.InitiateMonthAt | src/domain/LifeHistory.ts:78-92 | the month at tree-order position n has id n, month number n % 12 + 1 and only the placeholder event with id n |
| LifeHistoryProperties.InitiateMonthsInOrder | src/domain/LifeHistory.ts:78-92 | a fresh grid has exactly 1200 months whose ids, in tree order, are 0..1199 ascending, each holding exactly one event whose id is the month's |
| LifeHistoryProperties.IdArithmeticInverse | src/domain/LifeHistory.ts:114-118 | `floor(n/12/10)+1` and `floor(n/12)+1` recover the decade and year numbers from the month id formula of the construction |
| LifeHistoryProperties.InitiateConsistent | src/domain/LifeHistory.ts:72-81 | in a fresh grid every month lies in the decade and year that the move computes from its id |
| LifeHistoryProperties.InitiatePathUnique | src/domain/LifeHistory.ts:114-130 | for a month id n < 1200 exactly one decade and one year match the computed numbers, and they hold month n |
| LifeHistoryProperties.MoveEventEachMonth | src/domain/LifeHistory.ts:120-161 | on a consistent grid a move keeps the shape and consistency and changes each month exactly as the per-month reference `MovedMonth` does |
| LifeHistoryProperties.MoveEventTarget | src/domain/LifeHistory.ts:151-155 | the target month ends with the event, preceded by its previous events (after the removal when source equals target) |
| LifeHistoryProperties.MoveEventSource | src/domain/LifeHistory.ts:130-136 | when source and target differ, the source month holds no event with the moved id and keeps every other event |
| LifeHistoryProperties.MoveEventInOrder | src/domain/LifeHistory.ts:120-161 | read in tree order, a move on a consistent 10 x 10 x 12 grid keeps the month count and maps each month through `MovedMonth` |
| LifeHistoryProperties.MoveEventOnInitiate | src/domain/LifeHistory.ts:99-161 | on a fresh grid the target month holds its placeholder (unless removed) then the event, the source month loses its placeholder exactly when the ids match, and every month other than the source and the target is untouched |
| LifeHistoryProperties.MoveEventOnInitiateAt | src/domain/LifeHistory.ts:99-161 | on a fresh grid, the month at tree-order position n keeps id and number, loses its placeholder only if it is the source and the ids match, and gains the event last only if it is the target |
| LifeHistoryProperties.MoveEventToMissingMonth | src/domain/LifeHistory.ts:143-161 | on a fresh grid, with a target id of 1200 or more (one no month has), the event is removed from the source and appended nowhere: no month gains it; for consistent grids in general, `MoveEventEachMonth` / `MovedMonth` give the effect month by month |
| LifeHistoryProperties.EventKindsIndependent | src/domain/LifeHistory.ts:53-63 | `IsTextEvent` / `IsImageEvent` (`isLifeHistoryTextEvent` / `isLifeHistoryImageEvent`): an absent or empty field never makes that kind, and the two kinds are independent — an event exists for each of the four combinations |
| LifeHistoryProperties.PlaceholderKinds | src/domain/LifeHistory.ts:83-92 | placeholder events are both text and image events, and their texts differ between months |
| Units.ParseLifeUnit | src/App.tsx:19 | a string names a span exactly when it is one of "life", "year", "month", and then names that one |
| TimeUnitOptions.GetTimeUnitOptions | src/utils/getTimeUnitOptions.ts:3-14 | the options are exactly the cell units strictly finer than the named span, coarsest first; an unknown name gets none |
| TimeUnitOptions.OptionsPerUnit | src/utils/getTimeUnitOptions.ts:4-12 | "life" gives years, months, weeks; "year" gives months, weeks; "month" gives weeks |
| TimeUnitOptions.OptionsNarrow | src/utils/getTimeUnitOptions.ts:3-14 | every option list is a suffix of the "life" list and every non-empty one ends with weeks |
| TimeUnitOptions.OptionsMonotone | src/utils/getTimeUnitOptions.ts:3-14 | a coarser span is offered every unit a finer span is |
| GridCells.Cells | src/App.tsx:39 | `Array.from({length: k}, (_, i) => i + 1)` has length k and element i equal to i + 1 |
| GridCells.GenerateGrid | src/App.tsx:35-50 | cells are 1, 2, … with no gap, strictly increasing; a life always has 100 (one per year); for a year or a month and an offered unit, the count is how many of that unit the span holds |
| GridCells.GridPerUnit | src/App.tsx:38-46 | life gives 1..100 whatever the unit; year gives 1..12 for months and 1..52 otherwise; month gives 1..4 |

## Left out

- The UI callback field `setOpenUploadForm` of decade, year and month nodes: it is a React setter, not data.
- `Number(...)` on strings other than `String(n)`, and `String(n)` for numbers large enough to print in exponent form: month ids are only ever built by `String` of small numbers.
- `Math.floor` over floating-point division is modelled as division of natural numbers; the two agree for every id far below 2^40.
- GenerateGrid: for a life with an offered unit of months or weeks the source still returns 100 cells (one per year), not `UnitsPerSpan(Life, Months)` or `UnitsPerSpan(Life, Weeks)`; the contract states the source's count, and the source's comment says the life view is one cell per year.
- GenerateGrid: the final empty-list fall-through of `generateGrid` cannot be reached, because its argument is typed as one of the three spans.
- A birth-date-aware grid and rewriting an event's date on a move: the code of `initiate` takes no birth date and `moveEvent` appends the event unchanged.
- A "not found" result for `moveEvent`: the code has none; a missing source event is still appended and a missing target month drops the event (stated by `MoveEventToMissingMonth`).
- Object identity and structural sharing: the source returns untouched nodes by reference and fresh objects on the edited path; the model compares nodes by value only.
- Stored events loaded from the database never enter the grid: the view draws them beside each month by comparing a `YYYY-MM` date string with the month id, which is one of "0".."1199". That rendering is UI and not modelled.
- Rendering, drag-and-drop wiring (`handleDragEnd` only forwards to `moveEvent`), authentication, the hosted database and image storage, query caching, dark-mode storage and date formatting: these are I/O and UI outside the core.
