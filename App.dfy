/**
 * The parts of the Application window that drive the core: the guards of
 * next_step, previous_step and find_minimum, entering and leaving step mode,
 * and the two windows show_answer marks for a query.
 */
module App {
  import opened Options
  import opened MinLog
  import opened SparseTables
  import opened Tiles
  import opened StepBuilding

  /** What find_minimum does with two integer indices: one of its error messages, or the answer. */
  datatype QueryOutcome =
    | StartBelowZero
    | StartPastEnd
    | EndBelowZero
    | EndPastEnd
    | StartAfterEnd
    | Answer(minimum: int)

  /**
   * find_minimum: check the start index, then the end index, then their
   * order, and only then ask get_minimum.
   */
  function FindMinimumOutcome(t: SparseTable, left: int, right: int): (o: QueryOutcome)
    reads t.table
    requires t.Valid()
    ensures o.Answer? <==> 0 <= left <= right < t.columnsNumber
    ensures o.Answer? ==> o.minimum == MinOf(t.elements[left..right + 1])
    ensures left < 0 ==> o == StartBelowZero
    ensures t.columnsNumber <= left ==> o == StartPastEnd
    ensures 0 <= left < t.columnsNumber && right < 0 ==> o == EndBelowZero
    ensures 0 <= left < t.columnsNumber && t.columnsNumber <= right ==> o == EndPastEnd
    ensures 0 <= right < left < t.columnsNumber ==> o == StartAfterEnd
  {
    if left < 0 then StartBelowZero
    else if left >= t.columnsNumber then StartPastEnd
    else if right < 0 then EndBelowZero
    else if right >= t.columnsNumber then EndPastEnd
    else if left > right then StartAfterEnd
    else Answer(t.GetMinimum(left, right))
  }

  /**
   * show_answer marks row k = get_log_by_length(length) of the table at the
   * left index and at right - 2^k + 1, and the array sections of length 2^k
   * starting there. Both cells are filled and hold the answer between them;
   * the two sections lie inside [left, right], cover it, and coincide
   * exactly when the length is a power of two.
   */
  lemma ShowAnswerWindows(t: SparseTable, left: nat, right: nat)
    requires t.Valid()
    requires left <= right < t.columnsNumber
    ensures var k := t.GetLogByLength(right - left + 1);
      var rightStart := right - Pow2(k) + 1;
      && 0 <= rightStart && k < t.rowsNumber
      && t.GetCellValue(k, left).Some? && t.GetCellValue(k, rightStart).Some?
      && Min(t.GetCellValue(k, left).value, t.GetCellValue(k, rightStart).value) == t.GetMinimum(left, right)
      && left <= rightStart && left + Pow2(k) <= right + 1
      && rightStart <= left + Pow2(k)
      && (left == rightStart <==> Pow2(k) == right - left + 1)
  {
    QueryReadsFilledCells(t, left, right);
  }

  /**
   * The application once build_table has accepted the array (it refuses
   * fewer than two elements): the table canvas, the step-mode flag and the
   * flag set while an answer is on show.
   */
  class Application {
    /** The numbers on the array canvas; the model does not edit them. */
    const values: seq<int>
    const tableCanvas: TableCanvas
    var inStepBuilding: bool
    var inShowingAnswer: bool

    ghost predicate Valid()
      reads this, tableCanvas, tableCanvas.numbers, tableCanvas.sparseTable.table
    {
      && |values| >= 2
      && tableCanvas.Valid()
      && tableCanvas.sparseTable.elements == values
      && (inStepBuilding <==> tableCanvas.cursor.At?)
      && (inStepBuilding ==> !inShowingAnswer)
    }

    predicate CanUseCanvases()
      reads this
    {
      !inStepBuilding && !inShowingAnswer
    }

    constructor (values: seq<int>)
      requires |values| >= 2
      ensures Valid() && this.values == values
      ensures !inStepBuilding && !inShowingAnswer
    {
      this.values := values;
      tableCanvas := new TableCanvas(values);
      inStepBuilding, inShowingAnswer := false, false;
    }

    /** start_step_building: refused while a canvas is busy; otherwise the cursor goes to the sentinel and every cell is blanked. */
    method StartStepBuilding()
      requires Valid()
      modifies this, tableCanvas, tableCanvas.numbers
      ensures Valid()
      ensures old(CanUseCanvases()) ==> inStepBuilding && tableCanvas.cursor == At(0, -1)
      ensures old(CanUseCanvases()) ==> forall r, c :: 0 <= r < tableCanvas.numbers.Length0 && 0 <= c < tableCanvas.numbers.Length1 ==>
        tableCanvas.numbers[r, c] == Blank
      ensures !old(CanUseCanvases()) ==> unchanged(this, tableCanvas) && unchanged(old(tableCanvas.numbers))
    {
      if !CanUseCanvases() {
        return;
      }
      inStepBuilding := true;
      tableCanvas.InitializeStepBuilding();
    }

    /** end_step_building: leave step mode, drop the cursor and rebuild, which shows the whole table again. */
    method EndStepBuilding()
      requires Valid() && inStepBuilding
      modifies this, tableCanvas
      ensures Valid() && !inStepBuilding && tableCanvas.cursor == NoCursor
      ensures inShowingAnswer == old(inShowingAnswer)
      ensures forall r, c :: 0 <= r < tableCanvas.numbers.Length0 && 0 <= c < tableCanvas.numbers.Length1 ==>
        tableCanvas.numbers[r, c] == Revealed(tableCanvas.sparseTable.table[r, c])
    {
      inStepBuilding := false;
      tableCanvas.cursor := NoCursor;
      tableCanvas.FillTable(values);
    }

    /** next_step: at the last cell of the last row stepping ends; anywhere else the cursor advances. */
    method NextStep() returns (log: Option<StepLog>)
      requires Valid() && inStepBuilding
      modifies this, tableCanvas, tableCanvas.numbers
      ensures Valid()
      ensures old(tableCanvas.AtTerminal()) ==> log == None && !inStepBuilding && tableCanvas.cursor == NoCursor
      ensures inShowingAnswer == old(inShowingAnswer)
      ensures !old(tableCanvas.AtTerminal()) ==>
        && inStepBuilding
        && tableCanvas.sparseTable == old(tableCanvas.sparseTable)
        && tableCanvas.cursor == NextPosition(|values|, old(tableCanvas.cursor.row), old(tableCanvas.cursor.column))
        && tableCanvas.cursor.row >= 0 && tableCanvas.cursor.column >= 0
        && log == Some(ActionLog(|values|, tableCanvas.cursor.row, tableCanvas.cursor.column))
    {
      if tableCanvas.AtTerminal() {
        EndStepBuilding();
        log := None;
      } else {
        var step := tableCanvas.ToNextStep();
        log := Some(step);
      }
    }

    /** previous_step: nothing happens on the first cell or the sentinel; anywhere else the cursor steps back. */
    method PreviousStep() returns (log: Option<StepLog>)
      requires Valid() && inStepBuilding
      modifies this, tableCanvas, tableCanvas.numbers
      ensures Valid() && inStepBuilding
      ensures old(tableCanvas.cursor.row == 0 && tableCanvas.cursor.column <= 0) ==>
        log == None && unchanged(this, tableCanvas) && unchanged(old(tableCanvas.numbers))
      ensures !old(tableCanvas.cursor.row == 0 && tableCanvas.cursor.column <= 0) ==>
        && tableCanvas.sparseTable == old(tableCanvas.sparseTable)
        && tableCanvas.cursor == PreviousPosition(|values|, old(tableCanvas.cursor.row), old(tableCanvas.cursor.column))
        && tableCanvas.cursor.row >= 0 && tableCanvas.cursor.column >= 0
        && log == Some(ActionLog(|values|, tableCanvas.cursor.row, tableCanvas.cursor.column))
    {
      if tableCanvas.cursor.row == 0 && tableCanvas.cursor.column <= 0 {
        log := None;
      } else {
        var step := tableCanvas.ToPreviousStep();
        log := Some(step);
      }
    }

    /** find_minimum followed by show_answer: an answer is put on show, an error leaves the flags alone. */
    method FindMinimum(left: int, right: int) returns (outcome: QueryOutcome)
      requires Valid() && !inStepBuilding
      modifies this
      ensures Valid() && !inStepBuilding
      ensures outcome == FindMinimumOutcome(tableCanvas.sparseTable, left, right)
      ensures inShowingAnswer == (old(inShowingAnswer) || outcome.Answer?)
    {
      outcome := FindMinimumOutcome(tableCanvas.sparseTable, left, right);
      if outcome.Answer? {
        inShowingAnswer := true;
      }
    }

    /** stop_showing_answer, the timer callback that takes the answer off show. */
    method StopShowingAnswer()
      requires Valid()
      modifies this
      ensures Valid() && !inShowingAnswer && inStepBuilding == old(inStepBuilding)
    {
      inShowingAnswer := false;
    }
  }
}
