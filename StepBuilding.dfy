/**
 * The step-by-step replay of the build on the table canvas
 * (TableCanvas in application.py): a cursor that walks the table in
 * row-major order from the sentinel (0, -1), and a grid of displayed
 * numbers in which exactly the cells at or before the cursor show the
 * table's value.
 */
module StepBuilding {
  import opened Options
  import opened MinLog
  import opened SparseTables
  import opened Tiles

  /** current_row / current_column: unset outside step mode, a position during it. */
  datatype Cursor = NoCursor | At(row: int, column: int)

  /** What perform_action returns besides its message. */
  datatype StepLog = StepLog(leftStart: Option<int>, rightStart: Option<int>, parentRow: int)

  /** Row-major order: cell (r, c) is at or before position (row, column). */
  predicate AtOrBefore(r: int, c: int, row: int, column: int): (reached: bool)
  {
    r < row || (r == row && c <= column)
  }

  /** to_next_step's move: one column right, wrapping to the start of the next row. */
  function NextPosition(columnsNumber: int, row: int, column: int): (next: Cursor)
  {
    if column + 1 == columnsNumber then At(row + 1, 0) else At(row, column + 1)
  }

  /** to_previous_step's move: one column left, wrapping to the end of the previous row. */
  function PreviousPosition(columnsNumber: int, row: int, column: int): (previous: Cursor)
  {
    if column - 1 == -1 then At(row - 1, columnsNumber - 1) else At(row, column - 1)
  }

  /** A step back undoes a step forward from any cell of the table. */
  lemma PreviousUndoesNext(columnsNumber: nat, row: nat, column: nat)
    requires column < columnsNumber
    ensures var next := NextPosition(columnsNumber, row, column);
      PreviousPosition(columnsNumber, next.row, next.column) == At(row, column)
  {
  }

  /** A step forward undoes a step back onto any cell of the table. */
  lemma NextUndoesPrevious(columnsNumber: nat, row: nat, column: nat)
    requires column < columnsNumber
    ensures var previous := PreviousPosition(columnsNumber, row, column);
      NextPosition(columnsNumber, previous.row, previous.column) == At(row, column)
  {
  }

  /** A step forward reveals exactly one more cell: the one it lands on. */
  lemma NextRevealsOneCell(columnsNumber: nat, row: int, column: int, r: int, c: int)
    requires -1 <= column < columnsNumber && 0 <= c < columnsNumber
    ensures var next := NextPosition(columnsNumber, row, column);
      AtOrBefore(r, c, next.row, next.column) <==> AtOrBefore(r, c, row, column) || (r == next.row && c == next.column)
  {
  }

  /**
   * The data perform_action reports at (row, column): the starts of the two
   * half-length windows one row down that the cell combines, or None for
   * row 0 and for a cell whose window overruns the array.
   */
  function ActionLog(columnsNumber: nat, row: nat, column: nat): (log: StepLog)
  {
    if row == 0 then StepLog(None, None, row - 1)
    else if columnsNumber - Pow2(row) < column then StepLog(None, None, row - 1)
    else StepLog(Some(column), Some(column + Pow2(row - 1)), row - 1)
  }

  /**
   * What a step reports explains the cell it reveals: children are reported
   * exactly for a filled cell above row 0; they are filled cells one row
   * down whose windows split the cell's window in two, and the cell holds
   * the smaller of their values. Row 0 holds the element itself.
   */
  lemma ActionLogExplainsCell(t: SparseTable, row: nat, column: nat)
    requires t.Valid()
    requires row < t.rowsNumber && column < t.columnsNumber
    ensures var log := ActionLog(t.columnsNumber, row, column);
      && log.parentRow == row - 1
      && (log.leftStart.Some? <==> log.rightStart.Some?)
      && (log.leftStart.Some? <==> row >= 1 && t.GetCellValue(row, column).Some?)
      && (row == 0 ==> t.GetCellValue(row, column) == Some(t.elements[column]))
      && (log.leftStart.Some? ==>
            && log.leftStart.value == column
            && log.leftStart.value + Pow2(row - 1) == log.rightStart.value
            && log.rightStart.value + Pow2(row - 1) == column + Pow2(row)
            && t.GetCellValue(row - 1, log.leftStart.value).Some?
            && t.GetCellValue(row - 1, log.rightStart.value).Some?
            && t.GetCellValue(row, column).value
               == Min(t.GetCellValue(row - 1, log.leftStart.value).value,
                      t.GetCellValue(row - 1, log.rightStart.value).value))
  {
    if row == 0 {
      MinOfSingle(t.elements, column);
    } else if column + Pow2(row) <= t.columnsNumber {
      TableRecurrence(t, row, column);
    }
  }

  /** The grid of a freshly filled canvas: every cell shows the table's value (fill_table). */
  method RevealedGrid(t: SparseTable) returns (numbers: array2<Shown>)
    requires t.Valid()
    ensures fresh(numbers)
    ensures numbers.Length0 == t.rowsNumber && numbers.Length1 == t.columnsNumber
    ensures forall r, c :: 0 <= r < t.rowsNumber && 0 <= c < t.columnsNumber ==> numbers[r, c] == Revealed(t.table[r, c])
  {
    numbers := new Shown[t.rowsNumber, t.columnsNumber]((_, _) => Blank);
    for i := 0 to t.rowsNumber
      invariant forall r, c :: 0 <= r < i && 0 <= c < t.columnsNumber ==> numbers[r, c] == Revealed(t.table[r, c])
    {
      for g := 0 to t.columnsNumber
        invariant forall r, c :: 0 <= r < t.rowsNumber && 0 <= c < t.columnsNumber && (r < i || (r == i && c < g)) ==>
          numbers[r, c] == Revealed(t.table[r, c])
      {
        numbers[i, g] := Revealed(t.GetCellValue(i, g));
      }
    }
  }

  class TableCanvas {
    var sparseTable: SparseTable
    /** The number shown by each TableCell of table_cells. */
    var numbers: array2<Shown>
    var cursor: Cursor

    ghost predicate CursorInRange()
      reads this
    {
      match cursor
      case NoCursor => true
      case At(row, column) =>
        (row == 0 && column == -1) || (0 <= row < sparseTable.rowsNumber && 0 <= column < sparseTable.columnsNumber)
    }

    /** What cell (r, c) shows for the current cursor: the table's value once reached, "" before. */
    ghost function Expected(r: nat, c: nat): Shown
      reads this, sparseTable.table
      requires sparseTable.Valid() && r < sparseTable.rowsNumber && c < sparseTable.columnsNumber
    {
      if cursor.NoCursor? || AtOrBefore(r, c, cursor.row, cursor.column) then Revealed(sparseTable.table[r, c]) else Blank
    }

    /** The grid agrees with the cursor everywhere, except possibly at the cell (row, column). */
    ghost predicate ShowsExceptAt(row: int, column: int)
      reads this, numbers, sparseTable.table
      requires sparseTable.Valid()
      requires numbers.Length0 == sparseTable.rowsNumber && numbers.Length1 == sparseTable.columnsNumber
    {
      forall r, c :: 0 <= r < numbers.Length0 && 0 <= c < numbers.Length1 && (r != row || c != column) ==>
        numbers[r, c] == Expected(r, c)
    }

    ghost predicate Valid()
      reads this, numbers, sparseTable.table
    {
      && sparseTable.Valid()
      && numbers.Length0 == sparseTable.rowsNumber && numbers.Length1 == sparseTable.columnsNumber
      && CursorInRange()
      && ShowsExceptAt(-1, -1)
    }

    predicate AtTerminal()
      reads this
    {
      cursor == At(sparseTable.rowsNumber - 1, sparseTable.columnsNumber - 1)
    }

    /** __init__ followed by fill_table: a table built from the array, every cell shown, no cursor. */
    constructor (values: seq<int>)
      requires |values| >= 1
      ensures Valid() && cursor == NoCursor && sparseTable.elements == values
      ensures fresh(sparseTable) && fresh(numbers)
    {
      var t := new SparseTable(values);
      var grid := RevealedGrid(t);
      sparseTable, numbers, cursor := t, grid, NoCursor;
    }

    /** fill_table: a new table for the array and a new grid showing all of it. */
    method FillTable(values: seq<int>)
      requires |values| >= 1
      requires cursor == NoCursor
      modifies this
      ensures Valid() && cursor == NoCursor && sparseTable.elements == values
      ensures fresh(sparseTable) && fresh(numbers)
    {
      var t := new SparseTable(values);
      var grid := RevealedGrid(t);
      sparseTable, numbers := t, grid;
    }

    /** initialize_step_building: cursor at the sentinel (0, -1), every cell blank. */
    method InitializeStepBuilding()
      requires Valid()
      modifies this, numbers
      ensures Valid() && cursor == At(0, -1)
      ensures sparseTable == old(sparseTable) && numbers == old(numbers)
      ensures forall r, c :: 0 <= r < numbers.Length0 && 0 <= c < numbers.Length1 ==> numbers[r, c] == Blank
    {
      cursor := At(0, -1);
      var grid, rowsNumber, columnsNumber := numbers, sparseTable.rowsNumber, sparseTable.columnsNumber;
      for row := 0 to rowsNumber
        modifies grid
        invariant forall r, c :: 0 <= r < row && 0 <= c < columnsNumber ==> grid[r, c] == Blank
      {
        for column := 0 to columnsNumber
          modifies grid
          invariant forall r, c :: 0 <= r < rowsNumber && 0 <= c < columnsNumber && (r < row || (r == row && c < column)) ==>
            grid[r, c] == Blank
        {
          grid[row, column] := Blank;
        }
      }
    }

    /**
     * perform_action: show the table's value at the cursor (None for a cell
     * past the array) and report the two children it combines.
     */
    method PerformAction() returns (log: StepLog)
      requires sparseTable.Valid()
      requires numbers.Length0 == sparseTable.rowsNumber && numbers.Length1 == sparseTable.columnsNumber
      requires cursor.At? && 0 <= cursor.row < sparseTable.rowsNumber && 0 <= cursor.column < sparseTable.columnsNumber
      requires ShowsExceptAt(cursor.row, cursor.column)
      modifies numbers
      ensures Valid()
      ensures log == ActionLog(sparseTable.columnsNumber, cursor.row, cursor.column)
    {
      var row, column := cursor.row, cursor.column;
      numbers[row, column] := Revealed(sparseTable.GetCellValue(row, column));
      var leftChildStart, rightChildStart := None, None;
      if row == 0 {
      } else if sparseTable.columnsNumber - Pow2(row) < column {
      } else {
        leftChildStart := Some(column);
        rightChildStart := Some(column + Pow2(row - 1));
      }
      log := StepLog(leftChildStart, rightChildStart, row - 1);
    }

    /** to_next_step: advance the cursor one cell and reveal it. */
    method ToNextStep() returns (log: StepLog)
      requires Valid() && cursor.At? && !AtTerminal()
      modifies this, numbers
      ensures Valid() && sparseTable == old(sparseTable) && numbers == old(numbers)
      ensures cursor == NextPosition(sparseTable.columnsNumber, old(cursor.row), old(cursor.column))
      ensures cursor.row >= 0 && cursor.column >= 0
      ensures log == ActionLog(sparseTable.columnsNumber, cursor.row, cursor.column)
    {
      var row, column := cursor.row, cursor.column + 1;
      if column == sparseTable.columnsNumber {
        row, column := row + 1, 0;
      }
      cursor := At(row, column);
      log := PerformAction();
    }

    /** to_previous_step: blank the current cell, step the cursor back one cell and re-reveal that one. */
    method ToPreviousStep() returns (log: StepLog)
      requires Valid() && cursor.At? && !(cursor.row == 0 && cursor.column <= 0)
      modifies this, numbers
      ensures Valid() && sparseTable == old(sparseTable) && numbers == old(numbers)
      ensures cursor == PreviousPosition(sparseTable.columnsNumber, old(cursor.row), old(cursor.column))
      ensures cursor.row >= 0 && cursor.column >= 0
      ensures log == ActionLog(sparseTable.columnsNumber, cursor.row, cursor.column)
    {
      numbers[cursor.row, cursor.column] := Blank;
      var row, column := cursor.row, cursor.column - 1;
      if column == -1 {
        row, column := row - 1, sparseTable.columnsNumber - 1;
      }
      cursor := At(row, column);
      log := PerformAction();
    }
  }

  /** At the terminal cell the walk shows the whole table, as a direct build does. */
  lemma WalkEndsWithWholeTable(canvas: TableCanvas)
    requires canvas.Valid() && canvas.AtTerminal()
    ensures forall r, c :: 0 <= r < canvas.sparseTable.rowsNumber && 0 <= c < canvas.sparseTable.columnsNumber ==>
      canvas.numbers[r, c] == Revealed(canvas.sparseTable.table[r, c])
  {
  }

  /** The grid is a function of the cursor: two canvases over one table with one cursor show the same. */
  lemma DisplayDeterminedByCursor(c1: TableCanvas, c2: TableCanvas)
    requires c1.Valid() && c2.Valid()
    requires c1.sparseTable == c2.sparseTable && c1.cursor == c2.cursor
    ensures c1.numbers.Length0 == c2.numbers.Length0 && c1.numbers.Length1 == c2.numbers.Length1
    ensures forall r, c :: 0 <= r < c1.numbers.Length0 && 0 <= c < c1.numbers.Length1 ==> c1.numbers[r, c] == c2.numbers[r, c]
  {
  }
}
