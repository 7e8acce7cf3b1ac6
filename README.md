# Sparse table range-minimum visualiser, modelled in Dafny

The program teaches the sparse table for range-minimum queries (RMQ). It has
two front ends:

- `application.py` is the windowed program. The user types an array and builds
  a `SparseTable`. They can replay the build cell by cell on the table canvas,
  with the array tiles lit to show the two halves each cell combines. They can
  also ask for the minimum of a range, which is answered from two overlapping
  power-of-two windows.
- `console_version.py` is a small text program. It has its own table, laid out
  position-first, and its own query function.

This model covers the following parts of those programs:

- **The sparse table** (module `SparseTables`):
  - the floor-log lookup `logs`
  - the row-by-row build, which stops at the first window that overruns the array
  - cell reads
  - the overlapping-window query
- **Tile highlighting** (module `Tiles`):
  - the rule by which `set_state` merges a requested highlight into the current one (a `Left` tile asked to be `Right` becomes `Middle`)
  - `highlight_section`, which applies that rule to a run of tiles
- **The step-by-step replay** (module `StepBuilding`):
  - a cursor that walks the table in row-major order from the sentinel `(0, -1)`
  - the grid of numbers the cells display
  - what `perform_action` reports at each step
- **The application's guards** (module `App`):
  - entering and leaving step mode
  - `next_step` / `previous_step`
  - the checks `find_minimum` runs before it queries
  - the two windows `show_answer` marks
- **The console program** (module `ConsoleVersion`):
  - its build, with `inf` as the fill and `ceil(log2 n)` levels
  - its query
  - its read loop's index checks

`MinLog` holds the shared vocabulary:

- `Pow2`
- the exact integer logarithms `FloorLog2` and `CeilLog2`, which stand in for the program's floating-point `math.log2` / `math.log(x, 2)`
- `MinOf`, the minimum of a non-empty range
- `MinOfCover`, the lemma that makes both the build and the query right: two windows that lie inside a range and cover it give its minimum

Each table is specified by a function of the input array:

- `CellValue` for the windowed program.
- `Built` for the console program. Its partial cells are not window minima, so it needs a recursive definition of its own.

The building methods are proved to produce exactly that table. The query
functions are proved to return `MinOf` of the requested range.

## Model

| member | source | states |
|---|---|---|
| SparseTables.CalculateLogs | application.py:48-52 | The lookup has n + 1 entries (2 when n < 2), logs[0] = logs[1] = 0, and every entry k from 1 to n is floor(log2 k). |
| SparseTables.BuildSparseTable | application.py:54-67 | The grid is rows x n, and cell (r, c) holds the minimum of the 2^r elements from c when that window fits, and None otherwise. |
| SparseTables.QueryWindows | application.py:40-46 | For a range [lo, hi] and k = floor(log2 length), k is a row of the table, and the windows of length 2^k from lo and ending at hi lie inside the range and overlap or touch. |
| SparseTables.SparseTable.constructor | application.py:25-29 | The table is valid for the array, and rows_number = floor(log2 n) + 1 satisfies 2^(rows-1) <= n < 2^rows. |
| SparseTables.SparseTable.GetCellValue | application.py:34-35 | A cell holds a value exactly when its window fits in the array, and the value is that window's minimum. |
| SparseTables.SparseTable.GetLogByLength | application.py:37-38 | For a length from 1 to n the result k satisfies 2^k <= length < 2^(k+1) and is a row of the table. |
| SparseTables.SparseTable.GetMinimum | application.py:40-46 | For two indices in either order, the result is the minimum of the elements between them, inclusive. |
| SparseTables.QueryReadsFilledCells | application.py:44-46 | Both cells the query reads are filled, and the smaller of them is the range minimum. |
| SparseTables.TableRecurrence | application.py:60-65 | Every filled cell above row 0 is the smaller of its two half-windows one row down, and both of those are filled. |
| SparseTables.FilledCellsArePrefix | application.py:61-63 | In each row the filled cells form a prefix, so the build's break loses nothing. |
| SparseTables.RowsNumberIsExact | application.py:27 | Every row has a filled first cell, and n < 2^rows_number, so no further row could hold one. |
| SparseTables.GetMinimumSymmetric | application.py:41-42 | Swapping the two indices does not change the answer. |
| SparseTables.GetMinimumSingle | application.py:40-46 | A one-element query answers that element. |
| SparseTables.PresetOne | application.py:592-599 | For the first preset 4 1 10 7 3 7 5 the table has 3 rows, the whole-array minimum is 1, and the reversed query 4..2 answers 3. |
| Tiles.Merged | application.py:75-79 | The merged state is Middle exactly when Right is requested on a Left tile or Middle is requested; otherwise it is the requested state. |
| Tiles.NumberTile.SetState | application.py:75-79 | The tile's new state is the merge of its old state and the request, and its number is unchanged. |
| Tiles.TableCell.SetState | application.py:285-289 | The cell's new state is the merge of its old state and the request, and its number is unchanged. |
| Tiles.Highlighted | application.py:218-221 | Tiles inside the section take the merged state, tiles outside keep theirs, and the row keeps its length. |
| Tiles.HighlightSection | application.py:218-221 | The array of states afterwards is Highlighted of the old one; positions past the last tile are skipped. |
| Tiles.UnhighlightAll | application.py:223-224 | Unhighlighting every tile leaves all tiles Inactive, whatever they were. |
| Tiles.TwoWindows | application.py:762-768 | After clearing the tiles and marking a Left window and then a Right window, a tile is Middle exactly where both windows cover it, Left or Right where only one does, and Inactive elsewhere. |
| StepBuilding.PreviousUndoesNext | application.py:475-498 | From any cell, a step back after a step forward returns to that cell. |
| StepBuilding.NextUndoesPrevious | application.py:475-498 | A step forward after a step back returns to the same cell. |
| StepBuilding.NextRevealsOneCell | application.py:475-485 | A step forward adds exactly the cell it lands on to the cells at or before the cursor. |
| StepBuilding.ActionLogExplainsCell | application.py:442-473 | Child starts are reported exactly for filled cells above row 0. They are c and c + 2^(r-1) in row r - 1, both filled, tiling the cell's window, and the cell holds the smaller of them. Row 0 holds the element itself. |
| StepBuilding.RevealedGrid | application.py:341-344 | A fresh rows x n grid in which every cell shows the table's value. |
| StepBuilding.TableCanvas.constructor | application.py:332-344 | The canvas holds a valid table for the array and shows every cell, with no cursor. |
| StepBuilding.TableCanvas.FillTable | application.py:332-344 | A new table for the array and a new grid showing all of it, with no cursor. |
| StepBuilding.TableCanvas.InitializeStepBuilding | application.py:433-440 | The cursor is at (0, -1), every cell is blank, the table is kept, and the display invariant holds. |
| StepBuilding.TableCanvas.PerformAction | application.py:442-473 | The cell at the cursor shows the table's value (None past the array), the display invariant is restored, and the returned log is ActionLog of the cursor. |
| StepBuilding.TableCanvas.ToNextStep | application.py:475-485 | The cursor moves one cell forward in row-major order, onto a cell of the table; the display invariant holds and the log describes the new cell. |
| StepBuilding.TableCanvas.ToPreviousStep | application.py:487-498 | The old cell is blanked and the cursor moves one cell back; the display invariant holds and the log describes the new cell. |
| StepBuilding.WalkEndsWithWholeTable | application.py:757-759 | At the last cell of the last row, the replay shows the whole table, exactly as a direct fill does. |
| StepBuilding.DisplayDeterminedByCursor | application.py:433-498 | Two canvases over one table with the same cursor show the same grid, so the display depends only on the cursor. |
| App.FindMinimumOutcome | application.py:653-686 | An answer is given exactly when 0 <= left <= right < n, and it is the range minimum. Otherwise the first failing check, in the program's order, decides the error. |
| App.ShowAnswerWindows | application.py:812-825 | The two marked cells are filled and their minimum is the answer. The two marked sections lie inside the range and cover it, and they coincide exactly when the length is a power of two. |
| App.Application.constructor | application.py:688-700 | After a build of at least two elements, the application is valid and in neither step mode nor showing-answer mode. |
| App.Application.StartStepBuilding | application.py:709-732 | While a canvas is busy, nothing changes. Otherwise step mode is entered, with the cursor at (0, -1) and every cell blank. |
| App.Application.EndStepBuilding | application.py:734-755 | Step mode is left, the cursor is dropped, and every cell shows the table's value again. |
| App.Application.NextStep | application.py:757-768 | At the terminal cell, step mode ends. Otherwise the cursor advances one cell and the step's log is returned. |
| App.Application.PreviousStep | application.py:770-780 | At (0, 0) and at the sentinel, nothing changes. Otherwise the cursor steps back one cell and the step's log is returned. |
| App.Application.FindMinimum | application.py:653-686 | The outcome is FindMinimumOutcome, and an answer puts the application into showing-answer mode. |
| App.Application.StopShowingAnswer | application.py:829-833 | Showing-answer mode is cleared, and step mode is unchanged. |
| ConsoleVersion.MinEntry | console_version.py:17 | Python's min with inf above every number: one of the arguments, finite when either is, and the smaller number when both are. |
| ConsoleVersion.BuildSparseTable | console_version.py:4-19 | The table is n x ceil(log2 n) and entry [i][j] equals Built for every i and j. |
| ConsoleVersion.BuiltWindow | console_version.py:13-17 | An entry whose window of 2^j elements fits in the array holds that window's minimum. |
| ConsoleVersion.BuiltIsFinite | console_version.py:8-17 | An entry is a number exactly at level 0 and where i + 2^(j-1) < n. Everywhere else it keeps inf. |
| ConsoleVersion.BuiltTableEntries | console_version.py:8-17 | In the built table, fitting windows hold their minimum, and inf appears exactly where the inner loop broke off. |
| ConsoleVersion.QueryLevel | console_version.py:25 | For l < r and k = ceil(log2 length) - 1: k is a level of the table and 2^k < length <= 2^(k+1). |
| ConsoleVersion.GetMin | console_version.py:21-26 | For 0 <= l <= r < n, the answer is the minimum of a[l..r], as a number. |
| ConsoleVersion.GetMinWindowsCover | console_version.py:25-26 | The two level-k windows lie inside [l, r], and every index of the range is in one of them. |
| ConsoleVersion.AgreesWithMinimum | console_version.py:21-26 | The answer is finite, at most every element of the range, and equal to one of them. |
| ConsoleVersion.QueryAsWritten | console_version.py:41-57 | -1 -1 stops and out-of-range indices are refused. The program crashes exactly when both indices are in range and l > r. Every other pair is answered with the range minimum. |
| ConsoleVersion.ReversedPairCrashes | console_version.py:52-57 | The pair 1 0 passes the bounds check and crashes get_min. |
| ConsoleVersion.Query | console_version.py:41-57 | The loop never crashes. An answer is given exactly for in-range pairs, and it is the minimum between the two indices in either order. |
| ConsoleVersion.ProgramsAgree | console_version.py:21-26 | Built from the same array, the console table and the windowed table answer every in-order query with the same number. |
| ConsoleVersion.QueryExtendsAsWritten | console_version.py:41-57 | Wherever the program as written does not crash, the corrected loop behaves identically. |

## Left out

- Everything drawn on screen is left out:
  - tkinter widgets and colours (`get_color_by_state`, `draw_on`, `redraw_*`)
  - the pixel-to-cell mapping of the hover cursor (`process_motion`, `_get_column_by_x`, `_get_row_by_y`)
  - the placing and hiding of labels and buttons
  - the step and answer messages, which are formatted text
- The highlighting of table cells during a step or an answer (`highlight_cell_with_parents`, `unhighlight_cell`) is left out. Those cells hold only a display state, which uses the same merge rule as `Tiles.TableCell.SetState`. The grid of numbers in `TableCanvas` models what each cell shows.
- Editing of the array (adding, deleting and typing tiles) and the random presets are left out. The `Application` keeps the array it was built from, and only the first preset is checked, by `SparseTables.PresetOne`.
- Parsing the entry fields is left out. `find_minimum`'s "not a number" errors come from `int()` on free text. `App.FindMinimumOutcome` starts from two integers.
- The 6.5-second timer that calls `stop_showing_answer` is left out. It is an external event; `App.Application.StopShowingAnswer` is the callback.
- Console input and output are left out. The read loop is `ConsoleVersion.QueryAsWritten` / `Query` applied to one parsed pair. A line that does not parse as two integers is reported and skipped, and is not modelled.
- The logarithms are computed exactly. `math.log2` and `math.log(x, 2)` are floating point, and `int(...)` / `math.ceil(...)` of them are taken to be the exact floor and ceiling of log2. A rounding error at a large power of two is not modelled.
- Array elements are modelled as unbounded integers. In the windowed program they may also be floats: a typed value containing "." is stored as a `float` (application.py:194-195), and the second preset holds 1.45, -0.3 and 4.6. Comparisons of such values are not modelled. The console program's `inf` is modelled by `ConsoleVersion.Entry.Infinity`.
- App.Application.EndStepBuilding: `end_step_building` calls `build_table`, which builds a new `SparseTable` from the same tiles. The model refills the canvas from the same array (`FillTable`), so the state is the same, but the object is not shown to be replaced.
- SparseTables.SparseTable.GetMinimum: `get_minimum` has no bounds check of its own, and the model requires 0 <= index < n, as `find_minimum` guarantees before calling it. Out of range the source misbehaves in ways the model does not capture: on the 7-element preset, `get_minimum(4, 7)` reads two `None` cells and `min` raises `TypeError`, and negative indices wrap, so `get_minimum(-4, -1)` answers the minimum of the last four elements with no error.
- ConsoleVersion.GetMin requires l <= r. The program as written crashes otherwise; that path is modelled by `ConsoleVersion.QueryAsWritten` (see Findings).
- ConsoleVersion.BuildSparseTable requires at least two elements. With one, `ceil(log2 1) = 0` gives rows of length 0, and `sparse_table[i][0]` raises `IndexError`. With none, `math.log(0)` raises.
- App.Application.PreviousStep: `previous_step` does nothing at (0, 0) as well as at the sentinel. So once the first cell is shown, stepping back never returns to the all-blank grid. The model follows that code.

## Findings

| source | as written | input that shows it | evidently intended | confidence | as-written member | corrected member |
|---|---|---|---|---|---|---|
| console_version.py:52-57 | The loop checks only that both indices are inside the array, then calls get_min with l > r allowed. get_min then passes math.log a length of zero or less, and the ValueError ends the program outside the try block. | the query `1 0` on any array of two or more elements | a reversed pair is answered for the range it names, as the windowed program's get_minimum does by ordering the indices | medium, not executed | ConsoleVersion.QueryAsWritten, ConsoleVersion.ReversedPairCrashes | ConsoleVersion.Query, ConsoleVersion.QueryExtendsAsWritten |
