/** Where function patterns and data modules lie: sections 6.3 and 7.7.3 of ISO/IEC 18004:2015. */
module QrLayout {
  import opened QrEncoding

  type Cell = (int, int)

  function Size(version: int): int {
    17 + 4 * version
  }

  predicate InGrid(version: int, row: int, col: int) {
    0 <= row < Size(version) && 0 <= col < Size(version)
  }

  // ---- function patterns ----

  /** Distance at most 2, the reach of an alignment pattern around its centre. */
  predicate Near(a: int, centre: int) {
    centre - 2 <= a <= centre + 2
  }

  /** The three finder patterns with their separators. */
  predicate InFinder(version: int, row: int, col: int) {
    || (row <= 7 && col <= 7)
    || (row <= 7 && col >= Size(version) - 8)
    || (row >= Size(version) - 8 && col <= 7)
  }

  /** The middle alignment coordinate of versions 7 to 10. */
  function Middle(version: int): int {
    8 + 2 * version
  }

  predicate InAlignment(version: int, row: int, col: int) {
    var (m, far) := (Middle(version), Size(version) - 7);
    || (version >= 2 && Near(row, far) && Near(col, far))
    || (version >= 7 && Near(row, m) && (Near(col, 6) || Near(col, m) || Near(col, far)))
    || (version >= 7 && Near(col, m) && (Near(row, 6) || Near(row, far)))
  }

  /** Both copies of the format information, and the dark module. */
  predicate InFormat(version: int, row: int, col: int) {
    || (row == 8 && (col <= 8 || col >= Size(version) - 8))
    || (col == 8 && (row <= 8 || row >= Size(version) - 8))
  }

  predicate InVersionInfo(version: int, row: int, col: int) {
    && version >= 7
    && ((row <= 5 && Size(version) - 11 <= col <= Size(version) - 9)
        || (col <= 5 && Size(version) - 11 <= row <= Size(version) - 9))
  }

  /** A module that carries no data. */
  predicate IsFunction(version: int, row: int, col: int) {
    || InFinder(version, row, col)
    || row == 6 || col == 6
    || InAlignment(version, row, col)
    || InFormat(version, row, col)
    || InVersionInfo(version, row, col)
  }

  // ---- the zigzag ----

  /** The right column of the k-th column pair, from the right; the pairs skip column 6. */
  function RightColumn(version: int, k: int): int {
    var right := Size(version) - 1 - 2 * k;
    if right > 6 then right else right - 1
  }

  function PairCount(version: int): int {
    8 + 2 * version
  }

  /** The row of a step: pairs alternate between upward and downward, starting upward. */
  function StepRow(version: int, k: int, step: int): int {
    if k % 2 == 0 then Size(version) - 1 - step else step
  }

  /** The data modules of one row of a pair, right before left. */
  function RowCells(version: int, row: int, right: int): seq<Cell> {
    (if IsFunction(version, row, right) then [] else [(row, right)])
    + (if IsFunction(version, row, right - 1) then [] else [(row, right - 1)])
  }

  /** The data modules of the first n rows of pair k. */
  function PairCells(version: int, k: int, n: nat): seq<Cell> {
    if n == 0 then []
    else PairCells(version, k, n - 1) + RowCells(version, StepRow(version, k, n - 1), RightColumn(version, k))
  }

  /** The data modules of the first n pairs. */
  function Cells(version: int, n: nat): seq<Cell>
    requires IsVersion(version)
  {
    if n == 0 then [] else Cells(version, n - 1) + PairCells(version, n - 1, Size(version))
  }

  /** Every data module of the symbol, in the order in which bits are placed. */
  function DataCells(version: int): seq<Cell>
    requires IsVersion(version)
  {
    Cells(version, PairCount(version))
  }

  // ---- the zigzag is a bijection onto the data modules ----

  /** The pair a column belongs to. */
  function PairOf(version: int, col: int): int {
    if col > 6 then (Size(version) - 1 - col) / 2 else (Size(version) - 2 - col) / 2
  }

  /** The step at which pair k visits a row. */
  function StepOf(version: int, k: int, row: int): int {
    if k % 2 == 0 then Size(version) - 1 - row else row
  }

  lemma PairOfColumn(version: int, k: int, col: int)
    requires IsVersion(version) && 0 <= k < PairCount(version)
    requires col == RightColumn(version, k) || col == RightColumn(version, k) - 1
    ensures PairOf(version, col) == k && 0 <= col < Size(version)
  {
  }

  lemma PairColumns(version: int, k: int, col: int)
    requires IsVersion(version) && 0 <= col < Size(version) && col != 6 && k == PairOf(version, col)
    ensures 0 <= k < PairCount(version)
    ensures col == RightColumn(version, k) || col == RightColumn(version, k) - 1
  {
  }

  /** A visited cell is a data module, visited by its column's pair at its row's step. */
  ghost predicate Visited(version: int, k: int, n: int, cell: Cell) {
    && InGrid(version, cell.0, cell.1) && !IsFunction(version, cell.0, cell.1)
    && PairOf(version, cell.1) == k && StepOf(version, k, cell.0) < n
  }

  lemma RowCellsVisited(version: int, k: int, step: int, cell: Cell)
    requires IsVersion(version) && 0 <= k < PairCount(version) && 0 <= step < Size(version)
    requires cell in RowCells(version, StepRow(version, k, step), RightColumn(version, k))
    ensures Visited(version, k, step + 1, cell) && StepOf(version, k, cell.0) == step
  {
    PairOfColumn(version, k, cell.1);
  }

  lemma {:induction false} PairCellsVisited(version: int, k: int, n: nat, cell: Cell)
    requires IsVersion(version) && 0 <= k < PairCount(version) && n <= Size(version)
    requires cell in PairCells(version, k, n)
    ensures Visited(version, k, n, cell)
  {
    if cell in PairCells(version, k, n - 1) {
      PairCellsVisited(version, k, n - 1, cell);
    } else {
      RowCellsVisited(version, k, n - 1, cell);
    }
  }

  lemma {:induction false} CellsVisited(version: int, n: nat, cell: Cell) returns (k: nat)
    requires IsVersion(version) && n <= PairCount(version) && cell in Cells(version, n)
    ensures k < n && Visited(version, k, Size(version), cell)
  {
    var m := n - 1;
    if cell in PairCells(version, m, Size(version)) {
      k := m;
      PairCellsVisited(version, k, Size(version), cell);
    } else {
      k := CellsVisited(version, m, cell);
    }
  }

  ghost predicate Distinct(cells: seq<Cell>) {
    forall i, j :: 0 <= i < j < |cells| ==> cells[i] != cells[j]
  }

  lemma DistinctAppend(a: seq<Cell>, b: seq<Cell>)
    requires Distinct(a) && Distinct(b) && forall cell :: cell in a ==> cell !in b
    ensures Distinct(a + b)
  {
    forall i, j | 0 <= i < j < |a + b|
      ensures (a + b)[i] != (a + b)[j]
    {
      if i < |a| <= j {
        assert a[i] in a && b[j - |a|] in b;
      }
    }
  }

  lemma RowCellsNew(version: int, k: int, n: nat)
    requires IsVersion(version) && 0 <= k < PairCount(version) && n < Size(version)
    ensures forall cell :: cell in PairCells(version, k, n) ==>
      cell !in RowCells(version, StepRow(version, k, n), RightColumn(version, k))
  {
    forall cell | cell in PairCells(version, k, n)
      ensures cell !in RowCells(version, StepRow(version, k, n), RightColumn(version, k))
    {
      PairCellsVisited(version, k, n, cell);
      if cell in RowCells(version, StepRow(version, k, n), RightColumn(version, k)) {
        RowCellsVisited(version, k, n, cell);
      }
    }
  }

  lemma {:induction false} PairCellsDistinct(version: int, k: int, n: nat)
    requires IsVersion(version) && 0 <= k < PairCount(version) && n <= Size(version)
    ensures Distinct(PairCells(version, k, n))
  {
    if n > 0 {
      PairCellsDistinct(version, k, n - 1);
      RowCellsNew(version, k, n - 1);
      DistinctAppend(PairCells(version, k, n - 1),
        RowCells(version, StepRow(version, k, n - 1), RightColumn(version, k)));
    }
  }

  lemma PairCellsNew(version: int, n: nat)
    requires IsVersion(version) && n < PairCount(version)
    ensures forall cell :: cell in Cells(version, n) ==> cell !in PairCells(version, n, Size(version))
  {
    forall cell | cell in Cells(version, n)
      ensures cell !in PairCells(version, n, Size(version))
    {
      var k := CellsVisited(version, n, cell);
      if cell in PairCells(version, n, Size(version)) {
        PairCellsVisited(version, n, Size(version), cell);
      }
    }
  }

  lemma {:induction false} CellsDistinct(version: int, n: nat)
    requires IsVersion(version) && n <= PairCount(version)
    ensures Distinct(Cells(version, n))
  {
    if n > 0 {
      CellsDistinct(version, n - 1);
      PairCellsDistinct(version, n - 1, Size(version));
      PairCellsNew(version, n - 1);
      DistinctAppend(Cells(version, n - 1), PairCells(version, n - 1, Size(version)));
    }
  }

  lemma {:induction false} PairCellsContain(version: int, k: int, n: nat, step: nat, cell: Cell)
    requires step < n && cell in RowCells(version, StepRow(version, k, step), RightColumn(version, k))
    ensures cell in PairCells(version, k, n)
  {
    if step < n - 1 {
      PairCellsContain(version, k, n - 1, step, cell);
    }
  }

  lemma InAppend(cell: Cell, a: seq<Cell>, b: seq<Cell>)
    requires cell in a || cell in b
    ensures cell in a + b
  {
  }

  lemma InNextCells(version: int, n: nat, a: seq<Cell>, b: seq<Cell>, cell: Cell)
    requires IsVersion(version) && n > 0 && (cell in a || cell in b)
    requires a == Cells(version, n - 1) && b == PairCells(version, n - 1, Size(version))
    ensures cell in Cells(version, n)
  {
    InAppend(cell, a, b);
  }

  lemma {:induction false} CellsContain(version: int, n: nat, k: nat, pair: seq<Cell>, cell: Cell)
    requires IsVersion(version) && k < n && pair == PairCells(version, k, Size(version)) && cell in pair
    ensures cell in Cells(version, n)
  {
    if k < n - 1 {
      CellsContain(version, n - 1, k, pair, cell);
      InNextCells(version, n, Cells(version, n - 1), PairCells(version, n - 1, Size(version)), cell);
    } else {
      InNextCells(version, n, Cells(version, n - 1), pair, cell);
    }
  }

  lemma VisitingRow(version: int, k: int, row: int, col: int)
    requires IsVersion(version) && InGrid(version, row, col) && !IsFunction(version, row, col)
    requires k == PairOf(version, col)
    ensures 0 <= k < PairCount(version) && 0 <= StepOf(version, k, row) < Size(version)
    ensures (row, col) in RowCells(version, StepRow(version, k, StepOf(version, k, row)), RightColumn(version, k))
  {
    PairColumns(version, k, col);
  }

  lemma ZigzagMember(version: int, row: int, col: int)
    requires IsVersion(version)
    ensures (row, col) in DataCells(version) <==> InGrid(version, row, col) && !IsFunction(version, row, col)
  {
    if (row, col) in DataCells(version) {
      var k := CellsVisited(version, PairCount(version), (row, col));
    } else if InGrid(version, row, col) && !IsFunction(version, row, col) {
      var k := PairOf(version, col);
      VisitingRow(version, k, row, col);
      PairCellsContain(version, k, Size(version), StepOf(version, k, row), (row, col));
      CellsContain(version, PairCount(version), k, PairCells(version, k, Size(version)), (row, col));
    }
  }

  /** The path visits each data module exactly once and no other module; column 6 carries no data. */
  lemma ZigzagBijection(version: int)
    requires IsVersion(version)
    ensures Distinct(DataCells(version))
    ensures forall row, col {:trigger (row, col) in DataCells(version)} :: (row, col) in DataCells(version) <==>
      InGrid(version, row, col) && !IsFunction(version, row, col)
    ensures forall row :: (row, 6) !in DataCells(version)
  {
    CellsDistinct(version, PairCount(version));
    forall row: int, col: int {:trigger (row, col) in DataCells(version)}
      ensures (row, col) in DataCells(version) <==> InGrid(version, row, col) && !IsFunction(version, row, col)
    {
      ZigzagMember(version, row, col);
    }
  }
}
