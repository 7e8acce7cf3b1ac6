/**
 * The console program's own sparse table (console_version.py): indexed by
 * position first and level second, ceil(log2 n) levels, every entry
 * pre-filled with infinity, and a query that reads level
 * ceil(log2 length) - 1 without putting its indices in order.
 */
module ConsoleVersion {
  import opened Options
  import opened MinLog
  import opened SparseTables

  /** A table entry: a number, or the math.inf the table starts out holding. */
  datatype Entry = Finite(value: int) | Infinity

  /** Python's min(x, y) with infinity above every number: x unless y is smaller. */
  function MinEntry(x: Entry, y: Entry): (m: Entry)
    ensures m == x || m == y
    ensures m.Finite? <==> x.Finite? || y.Finite?
    ensures x.Finite? && y.Finite? ==> m == Finite(Min(x.value, y.value))
  {
    match (x, y)
    case (Finite(a), Finite(b)) => Finite(Min(a, b))
    case (Infinity, _) => y
    case (_, Infinity) => x
  }

  /** log_length: ceil(log2 n) levels. */
  function LevelCount(n: nat): (levels: nat)
    requires n >= 1
  {
    CeilLog2(n)
  }

  /**
   * What build_sparse_table leaves in entry [i][j]: the element at level 0;
   * above it, while i + 2^(j-1) is inside the array, the smaller of entry
   * [i][j-1] and entry [i + 2^(j-1)][j-1]; infinity once the inner loop has
   * broken off.
   */
  function Built(a: seq<int>, i: nat, j: nat): (entry: Entry)
    requires i < |a|
    decreases j
  {
    if j == 0 then Finite(a[i])
    else if i + Pow2(j - 1) < |a| then MinEntry(Built(a, i, j - 1), Built(a, i + Pow2(j - 1), j - 1))
    else Infinity
  }

  /** An entry whose window of length 2^j fits in the array holds that window's minimum. */
  lemma {:induction false} BuiltWindow(a: seq<int>, i: nat, j: nat)
    requires i + Pow2(j) <= |a|
    ensures Built(a, i, j) == Finite(MinOf(a[i..i + Pow2(j)]))
    decreases j
  {
    if j == 0 {
      MinOfSingle(a, i);
    } else {
      var half := Pow2(j - 1);
      BuiltWindow(a, i, j - 1);
      BuiltWindow(a, i + half, j - 1);
      MinOfCover(a, i, i + half, i + half, i + Pow2(j));
    }
  }

  /** Entry [i][j] is a number exactly at level 0 and where the inner loop wrote it. */
  lemma {:induction false} BuiltIsFinite(a: seq<int>, i: nat, j: nat)
    requires i < |a|
    ensures Built(a, i, j).Finite? <==> j == 0 || i + Pow2(j - 1) < |a|
  {
    if j > 0 && i + Pow2(j - 1) < |a| {
      BuiltIsFinite(a, i, j - 1);
    }
  }

  /** The table as build_sparse_table returns it for array a. */
  ghost predicate IsBuiltFrom(table: array2<Entry>, a: seq<int>)
    reads table
  {
    && |a| >= 2
    && table.Length0 == |a| && table.Length1 == LevelCount(|a|)
    && forall i, j :: 0 <= i < |a| && 0 <= j < table.Length1 ==> table[i, j] == Built(a, i, j)
  }

  /**
   * build_sparse_table. The array needs two elements: with one,
   * ceil(log2 1) = 0 leaves no level for the element (IndexError), and
   * log(0) raises for none.
   */
  method BuildSparseTable(values: seq<int>) returns (table: array2<Entry>)
    requires |values| >= 2
    ensures IsBuiltFrom(table, values)
  {
    var arrayLength := |values|;
    var logLength := LevelCount(arrayLength);
    table := new Entry[arrayLength, logLength]((_, _) => Infinity);

    for i := 0 to arrayLength
      invariant forall r, c :: 0 <= r < arrayLength && 0 <= c < logLength ==>
        table[r, c] == if c == 0 && r < i then Built(values, r, 0) else Infinity
    {
      table[i, 0] := Finite(values[i]);
    }

    for j := 1 to logLength
      invariant forall r, c {:trigger table[r, c]} :: 0 <= r < arrayLength && 0 <= c < j ==> table[r, c] == Built(values, r, c)
      invariant forall r, c :: 0 <= r < arrayLength && j <= c < logLength ==> table[r, c] == Infinity
    {
      var half := Pow2(j - 1);
      var i := 0;
      while i < arrayLength
        invariant i <= arrayLength
        invariant forall r, c {:trigger table[r, c]} :: 0 <= r < arrayLength && 0 <= c < j ==> table[r, c] == Built(values, r, c)
        invariant forall r {:trigger table[r, j]} :: 0 <= r < i ==> table[r, j] == Built(values, r, j)
        invariant forall r :: i <= r < arrayLength ==> table[r, j] == Infinity
        invariant forall r, c :: 0 <= r < arrayLength && j < c < logLength ==> table[r, c] == Infinity
      {
        if i + half >= arrayLength {
          forall r | i <= r < arrayLength
            ensures Built(values, r, j) == Infinity
          {
          }
          break;
        }
        ghost var entry := Built(values, i, j);
        assert entry == MinEntry(Built(values, i, j - 1), Built(values, i + half, j - 1));
        table[i, j] := MinEntry(table[i, j - 1], table[i + half, j - 1]);
        assert table[i, j] == entry;
        i := i + 1;
      }
    }
  }

  /**
   * What the built table holds: the minimum of the window for every entry
   * whose window of 2^j elements fits, and infinity where the inner loop
   * never reached.
   */
  lemma BuiltTableEntries(table: array2<Entry>, a: seq<int>, i: nat, j: nat)
    requires IsBuiltFrom(table, a)
    requires i < |a| && j < table.Length1
    ensures i + Pow2(j) <= |a| ==> table[i, j] == Finite(MinOf(a[i..i + Pow2(j)]))
    ensures table[i, j] == Infinity <==> j >= 1 && i + Pow2(j - 1) >= |a|
  {
    BuiltIsFinite(a, i, j);
    if i + Pow2(j) <= |a| {
      BuiltWindow(a, i, j);
    }
  }

  /**
   * The level get_min reads for l < r: k = ceil(log2 length) - 1, so that
   * 2^k < length <= 2^(k+1), and k is a level of the table.
   */
  lemma QueryLevel(n: nat, l: nat, r: nat)
    requires l < r < n
    ensures var k := CeilLog2(r - l + 1) - 1;
      && 0 <= k < LevelCount(n)
      && Pow2(k) < r - l + 1 <= Pow2(k + 1)
  {
    CeilLog2Monotone(r - l + 1, n);
  }

  /**
   * get_min: entry [l][0] when l = r; otherwise the smaller of the two
   * entries of level k that start at l and end at r. The console loop checks
   * the bounds only; l > r would hand math.log a non-positive length, which
   * raises, so the order is a requirement here.
   */
  function GetMin(table: array2<Entry>, l: int, r: int, ghost a: seq<int>): (m: Entry)
    reads table
    requires IsBuiltFrom(table, a)
    requires 0 <= l <= r < |a|
    ensures m == Finite(MinOf(a[l..r + 1]))
  {
    if l == r then
      MinOfSingle(a, l);
      table[l, 0]
    else
      var k := CeilLog2(r - l + 1) - 1;
      QueryLevel(|a|, l, r);
      BuiltWindow(a, l, k);
      BuiltWindow(a, r - Pow2(k) + 1, k);
      MinOfCover(a, l, l + Pow2(k), r - Pow2(k) + 1, r + 1);
      MinEntry(table[l, k], table[r - Pow2(k) + 1, k])
  }

  /** The windows get_min reads for l < r lie inside [l, r] and cover it. */
  lemma GetMinWindowsCover(l: nat, r: nat, t: nat)
    requires l < r && l <= t <= r
    ensures var k := CeilLog2(r - l + 1) - 1;
      && l + Pow2(k) <= r + 1 && l <= r - Pow2(k) + 1
      && (t < l + Pow2(k) || r - Pow2(k) + 1 <= t)
  {
    QueryLevel(r + 1, l, r);
  }

  /** get_min's answer is a number, at most every element of the range, and one of them. */
  lemma AgreesWithMinimum(table: array2<Entry>, a: seq<int>, l: nat, r: nat)
    requires IsBuiltFrom(table, a)
    requires l <= r < |a|
    ensures GetMin(table, l, r, a).Finite?
    ensures forall i :: l <= i <= r ==> GetMin(table, l, r, a).value <= a[i]
    ensures exists i :: l <= i <= r && GetMin(table, l, r, a).value == a[i]
  {
    MinOfIsMinimum(a[l..r + 1]);
    var m := GetMin(table, l, r, a).value;
    assert forall i :: l <= i <= r ==> a[i] == a[l..r + 1][i - l];
    var w :| 0 <= w < r + 1 - l && a[l..r + 1][w] == m;
    assert a[l + w] == m;
  }

  /** What one pass of the console loop does with a pair of parsed indices. */
  datatype Reply = Stop | OutOfRange | Crash | Answer(minimum: Entry)

  /**
   * The loop as written: -1 -1 ends it, an index outside the array is
   * refused, and everything else goes to get_min -- including l > r, where
   * math.log gets a length of zero or less and raises ValueError outside the
   * try block, which ends the program.
   */
  function QueryAsWritten(table: array2<Entry>, l: int, r: int, a: seq<int>): (reply: Reply)
    reads table
    requires IsBuiltFrom(table, a)
    ensures reply == Stop <==> l == -1 && r == -1
    ensures reply == OutOfRange <==> !(l == -1 && r == -1) && !(0 <= l < |a| && 0 <= r < |a|)
    ensures reply == Crash <==> 0 <= r < l < |a|
    ensures reply.Answer? <==> 0 <= l <= r < |a|
    ensures reply.Answer? ==> 0 <= l <= r < |a| && reply.minimum == Finite(MinOf(a[l..r + 1]))
  {
    if l == -1 && r == -1 then Stop
    else if !(0 <= l < |a| && 0 <= r < |a|) then OutOfRange
    else if l > r then Crash
    else Answer(GetMin(table, l, r, a))
  }

  /** The bounds check lets a reversed pair through: 1 0 ends the program. */
  lemma ReversedPairCrashes(table: array2<Entry>, a: seq<int>)
    requires IsBuiltFrom(table, a)
    ensures QueryAsWritten(table, 1, 0, a) == Crash
  {
  }

  /**
   * The loop with the reversed pair answered for the range it names, as the
   * windowed program's get_minimum does by ordering its indices.
   */
  function Query(table: array2<Entry>, l: int, r: int, a: seq<int>): (reply: Reply)
    reads table
    requires IsBuiltFrom(table, a)
    ensures reply != Crash
    ensures reply == Stop <==> l == -1 && r == -1
    ensures reply == OutOfRange <==> !(l == -1 && r == -1) && !(0 <= l < |a| && 0 <= r < |a|)
    ensures reply.Answer? <==> 0 <= l < |a| && 0 <= r < |a|
    ensures reply.Answer? ==>
      0 <= l < |a| && 0 <= r < |a| && reply.minimum == Finite(MinOf(a[Min(l, r)..Max(l, r) + 1]))
  {
    if l == -1 && r == -1 then Stop
    else if !(0 <= l < |a| && 0 <= r < |a|) then OutOfRange
    else if l > r then Answer(GetMin(table, r, l, a))
    else Answer(GetMin(table, l, r, a))
  }

  /** Wherever the program as written answers, the corrected loop gives the same answer. */
  lemma QueryExtendsAsWritten(table: array2<Entry>, a: seq<int>, l: int, r: int)
    requires IsBuiltFrom(table, a)
    requires QueryAsWritten(table, l, r, a) != Crash
    ensures Query(table, l, r, a) == QueryAsWritten(table, l, r, a)
  {
  }

  /**
   * The console program and the windowed program, built from the same
   * array, answer every in-order query the same way.
   */
  lemma ProgramsAgree(t: SparseTable, table: array2<Entry>, l: nat, r: nat)
    requires t.Valid() && IsBuiltFrom(table, t.elements)
    requires l <= r < t.columnsNumber
    ensures GetMin(table, l, r, t.elements) == Finite(t.GetMinimum(l, r))
  {
  }
}
