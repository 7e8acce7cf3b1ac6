/**
 * The sparse table of application.py: a floor-log lookup and a
 * rows_number x columns_number grid whose cell (r, c) holds the minimum of
 * the 2^r elements starting at c, or None where that window overruns the
 * array. Built once by the constructor and only read afterwards.
 */
module SparseTables {
  import opened Options
  import opened MinLog

  /** What cell (row, column) holds once the table is built. */
  function CellValue(a: seq<int>, row: nat, column: nat): (v: Option<int>)
  {
    if column + Pow2(row) <= |a| then Some(MinOf(a[column..column + Pow2(row)])) else None
  }

  /**
   * _calculate_logs: logs starts as [0, 0] and appends logs[i // 2] + 1 for
   * i = 2 .. n, so every entry from 1 to n is floor(log2) of its index.
   */
  method CalculateLogs(columnsNumber: nat) returns (logs: seq<nat>)
    ensures |logs| == if columnsNumber < 2 then 2 else columnsNumber + 1
    ensures logs[0] == 0 && logs[1] == 0
    ensures forall k {:trigger logs[k]} :: 1 <= k <= columnsNumber ==> logs[k] == FloorLog2(k)
  {
    logs := [0, 0];
    var i := 2;
    while i <= columnsNumber
      invariant if columnsNumber < 2 then i == 2 else 2 <= i <= columnsNumber + 1
      invariant |logs| == i
      invariant logs[0] == 0 && logs[1] == 0
      invariant forall k {:trigger logs[k]} :: 1 <= k < i ==> logs[k] == FloorLog2(k)
    {
      logs := logs + [logs[i / 2] + 1];
      i := i + 1;
    }
  }

  /**
   * _build_sparse_table: a grid of None, row 0 set to the input, then each
   * later row filled left to right from the row below, stopping at the
   * first column whose window would overrun the array.
   */
  method BuildSparseTable(values: seq<int>, rowsNumber: nat) returns (table: array2<Option<int>>)
    requires rowsNumber >= 1
    ensures table.Length0 == rowsNumber && table.Length1 == |values|
    ensures forall r, c :: 0 <= r < rowsNumber && 0 <= c < |values| ==> table[r, c] == CellValue(values, r, c)
  {
    var columnsNumber := |values|;
    table := new Option<int>[rowsNumber, columnsNumber]((_, _) => None);

    for i := 0 to columnsNumber
      invariant forall r, c :: 0 <= r < rowsNumber && 0 <= c < columnsNumber ==>
        table[r, c] == if r == 0 && c < i then CellValue(values, 0, c) else None
    {
      MinOfSingle(values, i);
      table[0, i] := Some(values[i]);
    }

    for row := 1 to rowsNumber
      invariant forall r, c :: 0 <= r < rowsNumber && 0 <= c < columnsNumber ==>
        table[r, c] == if r < row then CellValue(values, r, c) else None
    {
      var half := Pow2(row - 1);
      var column := 0;
      while column < columnsNumber
        invariant column <= columnsNumber
        invariant forall r, c :: 0 <= r < rowsNumber && 0 <= c < columnsNumber ==>
          table[r, c] == if r < row || (r == row && c < column) then CellValue(values, r, c) else None
      {
        if column + Pow2(row) > columnsNumber {
          break;
        }
        MinOfCover(values, column, column + half, column + half, column + Pow2(row));
        table[row, column] := Some(Min(table[row - 1, column].value, table[row - 1, column + half].value));
        column := column + 1;
      }
    }
  }

  /** The two windows of length 2^k, k = floor(log2 length), that a query reads. */
  lemma QueryWindows(columnsNumber: nat, lo: nat, hi: nat, k: nat)
    requires lo <= hi < columnsNumber
    requires k == FloorLog2(hi - lo + 1)
    ensures k < FloorLog2(columnsNumber) + 1
    ensures lo + Pow2(k) <= hi + 1 && hi + 1 - Pow2(k) <= lo + Pow2(k)
  {
    if k >= FloorLog2(columnsNumber) + 1 {
      Pow2Monotone(FloorLog2(columnsNumber) + 1, k);
    }
  }

  class SparseTable {
    const columnsNumber: nat
    const rowsNumber: nat
    const logs: seq<nat>
    const table: array2<Option<int>>
    /** The array the table was built from; the program keeps no copy of it. */
    ghost const elements: seq<int>

    ghost predicate Valid()
      reads table
    {
      && columnsNumber == |elements| >= 1
      && rowsNumber == FloorLog2(columnsNumber) + 1
      && |logs| == columnsNumber + 1
      && logs[0] == 0
      && (forall k {:trigger logs[k]} :: 1 <= k <= columnsNumber ==> logs[k] == FloorLog2(k))
      && table.Length0 == rowsNumber && table.Length1 == columnsNumber
      && forall r, c :: 0 <= r < rowsNumber && 0 <= c < columnsNumber ==> table[r, c] == CellValue(elements, r, c)
    }

    /** math.log2 of an empty array raises, so the array has at least one element. */
    constructor (values: seq<int>)
      requires |values| >= 1
      ensures Valid() && elements == values
      ensures Pow2(rowsNumber - 1) <= columnsNumber < Pow2(rowsNumber)
    {
      var n := |values|;
      var rows := FloorLog2(n) + 1;
      var lg := CalculateLogs(n);
      var built := BuildSparseTable(values, rows);
      columnsNumber, rowsNumber, logs, table, elements := n, rows, lg, built, values;
    }

    /** get_cell_value: the minimum of the cell's window, or None where it overruns the array. */
    function GetCellValue(row: nat, column: nat): (v: Option<int>)
      reads table
      requires Valid()
      requires row < rowsNumber && column < columnsNumber
      ensures v.Some? <==> column + Pow2(row) <= columnsNumber
      ensures v.Some? ==> v.value == MinOf(elements[column..column + Pow2(row)])
    {
      table[row, column]
    }

    /** get_log_by_length: floor(log2 length), which is also a row of the table. */
    function GetLogByLength(sectionLength: nat): (k: nat)
      reads table
      requires Valid()
      requires sectionLength <= columnsNumber
      ensures sectionLength >= 1 ==> Pow2(k) <= sectionLength < Pow2(k + 1) && k < rowsNumber
      ensures sectionLength == 0 ==> k == 0
    {
      if sectionLength >= 1 then QueryWindows(columnsNumber, 0, sectionLength - 1, logs[sectionLength]); logs[sectionLength]
      else logs[sectionLength]
    }

    /**
     * get_minimum: put the indices in order, then take the smaller of the two
     * overlapping windows of length 2^floor(log2 length) that start at the
     * left index and end at the right one.
     */
    function GetMinimum(index1: nat, index2: nat): (m: int)
      reads table
      requires Valid()
      requires index1 < columnsNumber && index2 < columnsNumber
      ensures m == MinOf(elements[Min(index1, index2)..Max(index1, index2) + 1])
    {
      var lo := if index1 > index2 then index2 else index1;
      var hi := if index1 > index2 then index1 else index2;
      var k := logs[hi - lo + 1];
      QueryReadsFilledCells(this, lo, hi);
      Min(table[k, lo].value, table[k, hi - Pow2(k) + 1].value)
    }
  }

  /** Both cells a query reads are filled, and the smaller of them is the minimum of the range. */
  lemma QueryReadsFilledCells(t: SparseTable, lo: nat, hi: nat)
    requires t.Valid()
    requires lo <= hi < t.columnsNumber
    ensures var k := t.logs[hi - lo + 1];
      && k < t.rowsNumber && hi + 1 - Pow2(k) >= 0
      && t.table[k, lo].Some? && t.table[k, hi + 1 - Pow2(k)].Some?
      && Min(t.table[k, lo].value, t.table[k, hi + 1 - Pow2(k)].value) == MinOf(t.elements[lo..hi + 1])
  {
    var k := t.logs[hi - lo + 1];
    QueryWindows(t.columnsNumber, lo, hi, k);
    MinOfCover(t.elements, lo, lo + Pow2(k), hi + 1 - Pow2(k), hi + 1);
  }

  /** The recurrence the build follows: each filled cell is the smaller of its two halves one row down. */
  lemma TableRecurrence(t: SparseTable, row: nat, column: nat)
    requires t.Valid()
    requires 1 <= row < t.rowsNumber && column + Pow2(row) <= t.columnsNumber
    ensures t.table[row, column].Some?
    ensures t.table[row - 1, column].Some? && t.table[row - 1, column + Pow2(row - 1)].Some?
    ensures t.table[row, column].value
         == Min(t.table[row - 1, column].value, t.table[row - 1, column + Pow2(row - 1)].value)
  {
    var half := Pow2(row - 1);
    MinOfCover(t.elements, column, column + half, column + half, column + Pow2(row));
  }

  /** The filled cells of a row are a prefix of it: once a window overruns, every later one does. */
  lemma FilledCellsArePrefix(t: SparseTable, row: nat, c1: nat, c2: nat)
    requires t.Valid()
    requires row < t.rowsNumber && c1 <= c2 < t.columnsNumber
    ensures t.table[row, c2].Some? ==> t.table[row, c1].Some?
  {
  }

  /** Every row has a filled first cell, and a further row would have none: rows_number is exact. */
  lemma RowsNumberIsExact(t: SparseTable, row: nat)
    requires t.Valid()
    requires row < t.rowsNumber
    ensures t.table[row, 0].Some?
    ensures t.columnsNumber < Pow2(t.rowsNumber)
  {
    Pow2Monotone(row, t.rowsNumber - 1);
  }

  /** Queries do not depend on the order of the indices. */
  lemma GetMinimumSymmetric(t: SparseTable, i: nat, j: nat)
    requires t.Valid()
    requires i < t.columnsNumber && j < t.columnsNumber
    ensures t.GetMinimum(i, j) == t.GetMinimum(j, i)
  {
  }

  /** A one-element query is that element. */
  lemma GetMinimumSingle(t: SparseTable, i: nat)
    requires t.Valid()
    requires i < t.columnsNumber
    ensures t.GetMinimum(i, i) == t.elements[i]
  {
    MinOfSingle(t.elements, i);
  }

  /**
   * The first preset array, 4 1 10 7 3 7 5: three rows, the whole array's
   * minimum is 1, and the query 4..2 (indices given in reverse) answers 3.
   */
  method PresetOne() returns (rows: nat, whole: int, middle: int)
    ensures rows == 3 && whole == 1 && middle == 3
  {
    var t := new SparseTable([4, 1, 10, 7, 3, 7, 5]);
    rows := t.rowsNumber;
    assert t.logs == [0, 0, 1, 1, 2, 2, 2, 2];
    whole := t.GetMinimum(0, 6);
    assert t.elements[0..7] == [4, 1, 10, 7, 3, 7, 5];
    MinOfUnique([4, 1, 10, 7, 3, 7, 5], 1);
    middle := t.GetMinimum(4, 2);
    assert t.elements[2..5] == [10, 7, 3];
    MinOfUnique([10, 7, 3], 3);
  }
}
