/** Writing the codeword bits along the zigzag: section 7.7.3 of ISO/IEC 18004:2015. */
module QrZigzag {
  import opened Bits
  import opened QrEncoding
  import opened QrLayout
  import opened QrPlacement

  /** The k-th bit to place: the codewords' bits, then zeros. */
  function DataBit(data: seq<Byte>, k: nat): bool {
    k < 8 * |data| && Stream(data)[k]
  }

  lemma {:induction false} StreamAt(data: seq<Byte>, q: nat, r: nat, k: nat, width: nat)
    requires q < |data| && r < width == 8 && k == 8 * q + r
    ensures Stream(data)[k] == BitString(data[q], width)[r]
  {
    if q > 0 {
      StreamAt(data[1..], q - 1, r, k - 8, width);
    }
  }

  /** The bit the source reads with shifts is the bit of the stream. */
  lemma ShiftedBit(data: seq<Byte>, k: nat, q: nat, r: nat, width: nat)
    requires k < 8 * |data| && q == k / 8 && r == k % 8 && width == 8
    ensures BitAt(data[q], width - 1 - r) == Stream(data)[k]
  {
    StreamAt(data, q, r, k, width);
    BitStringAt(data[q], width, r);
  }

  /** The function patterns are in place: reserved marks exactly the function modules. */
  ghost predicate Reserves(m: Matrix, version: int)
    reads m.reserved
  {
    && m.Valid() && IsVersion(version) && m.size == Size(version)
    && forall r, c :: m.In(r, c) ==> m.reserved[r, c] == IsFunction(version, r, c)
  }

  /** The function modules show their patterns. */
  ghost predicate ShowsPatterns(m: Matrix, version: int)
    requires m.Valid()
    reads m.modules
  {
    forall r, c :: m.In(r, c) && IsFunction(version, r, c) ==> m.modules[r, c] == PatternDark(version, r, c)
  }

  /** The first modules of the path carry the first bits. */
  ghost predicate Placed(m: Matrix, cells: seq<Cell>, data: seq<Byte>)
    requires m.Valid()
    reads m.modules
  {
    forall i :: 0 <= i < |cells| ==>
      m.In(cells[i].0, cells[i].1) && m.modules[cells[i].0, cells[i].1] == DataBit(data, i)
  }

  function CellIfFree(version: int, row: int, col: int): seq<Cell> {
    if IsFunction(version, row, col) then [] else [(row, col)]
  }

  method PlaceCell(m: Matrix, version: int, row: int, col: int, data: seq<Byte>, bitIndex: nat, ghost cells: seq<Cell>)
      returns (next: nat)
    requires Reserves(m, version) && ShowsPatterns(m, version) && m.In(row, col)
    requires Placed(m, cells, data) && bitIndex == |cells| && (row, col) !in cells
    modifies m.modules
    ensures Placed(m, cells + CellIfFree(version, row, col), data)
    ensures next == |cells + CellIfFree(version, row, col)|
    ensures ShowsPatterns(m, version)
  {
    next := bitIndex;
    if !m.reserved[row, col] {
      var bit := false;
      if bitIndex < |data| * 8 {
        ShiftedBit(data, bitIndex, bitIndex / 8, bitIndex % 8, 8);
        bit := BitAt(data[bitIndex / 8], 7 - bitIndex % 8);
      }
      next := next + 1;
      forall i | 0 <= i < |cells|
        ensures cells[i] != (row, col)
      {
        assert cells[i] in cells;
      }
      m.modules[row, col] := bit;
    }
  }

  /** One step of a pair: the right module, then the left. */
  method PlaceRow(m: Matrix, version: int, row: int, right: int, data: seq<Byte>, bitIndex: nat, ghost cells: seq<Cell>)
      returns (next: nat)
    requires Reserves(m, version) && ShowsPatterns(m, version) && m.In(row, right) && m.In(row, right - 1)
    requires Placed(m, cells, data) && bitIndex == |cells|
    requires (row, right) !in cells && (row, right - 1) !in cells
    modifies m.modules
    ensures Placed(m, cells + RowCells(version, row, right), data)
    ensures next == |cells + RowCells(version, row, right)|
    ensures ShowsPatterns(m, version)
  {
    next := PlaceCell(m, version, row, right, data, bitIndex, cells);
    next := PlaceCell(m, version, row, right - 1, data, next, cells + CellIfFree(version, row, right));
    assert cells + RowCells(version, row, right)
        == cells + CellIfFree(version, row, right) + CellIfFree(version, row, right - 1);
  }

  ghost function Visited(version: int, k: nat, step: nat): seq<Cell>
    requires IsVersion(version)
  {
    Cells(version, k) + PairCells(version, k, step)
  }

  lemma VisitedStep(version: int, k: nat, step: nat, row: int, right: int)
    requires IsVersion(version) && row == StepRow(version, k, step) && right == RightColumn(version, k)
    ensures Visited(version, k, step) + RowCells(version, row, right) == Visited(version, k, step + 1)
  {
    assert PairCells(version, k, step + 1) == PairCells(version, k, step) + RowCells(version, row, right);
  }

  lemma VisitedEnds(version: int, k: nat)
    requires IsVersion(version)
    ensures Visited(version, k, 0) == Cells(version, k)
    ensures Visited(version, k, Size(version)) == Cells(version, k + 1) == Visited(version, k + 1, 0)
  {
  }

  /** The path up to a step of pair k has its bits, and the function patterns stand. */
  ghost predicate Progress(m: Matrix, version: int, k: nat, step: nat, data: seq<Byte>, bitIndex: nat)
    reads m.modules, m.reserved
  {
    && Reserves(m, version) && ShowsPatterns(m, version)
    && Placed(m, Visited(version, k, step), data) && bitIndex == |Visited(version, k, step)|
  }

  /** One step of pair k. */
  method PlaceStep(m: Matrix, version: int, ghost k: nat, step: nat, right: int, upward: bool, data: seq<Byte>,
                   bitIndex: nat)
      returns (next: nat)
    requires Progress(m, version, k, step, data, bitIndex) && k < PairCount(version) && step < m.size
    requires right == RightColumn(version, k) && upward == (k % 2 == 0)
    modifies m.modules
    ensures Progress(m, version, k, step + 1, data, next)
  {
    var row := if upward then m.size - 1 - step else step;
    NotYetVisited(version, k, step, row, right);
    next := PlaceRow(m, version, row, right, data, bitIndex, Visited(version, k, step));
    VisitedStep(version, k, step, row, right);
  }

  /** One column pair, from bottom to top or from top to bottom. */
  method PlacePair(m: Matrix, version: int, ghost k: nat, right: int, upward: bool, data: seq<Byte>, bitIndex: nat)
      returns (next: nat)
    requires Progress(m, version, k, 0, data, bitIndex) && k < PairCount(version)
    requires right == RightColumn(version, k) && upward == (k % 2 == 0)
    modifies m.modules
    ensures Progress(m, version, k + 1, 0, data, next)
  {
    next := bitIndex;
    var step := 0;
    while step < m.size
      invariant 0 <= step <= m.size
      invariant Progress(m, version, k, step, data, next)
    {
      next := PlaceStep(m, version, k, step, right, upward, data, next);
      step := step + 1;
    }
    VisitedEnds(version, k);
  }

  /** The row about to be written holds no module that has a bit already. */
  lemma NotYetVisited(version: int, k: nat, step: nat, row: int, right: int)
    requires IsVersion(version) && k < PairCount(version) && step < Size(version)
    requires row == StepRow(version, k, step) && right == RightColumn(version, k)
    ensures InGrid(version, row, right) && InGrid(version, row, right - 1)
    ensures (row, right) !in Visited(version, k, step) && (row, right - 1) !in Visited(version, k, step)
  {
    PairOfColumn(version, k, right);
    PairOfColumn(version, k, right - 1);
    NotVisited(version, k, step, (row, right));
    NotVisited(version, k, step, (row, right - 1));
  }

  lemma NotVisited(version: int, k: nat, step: nat, cell: Cell)
    requires IsVersion(version) && k < PairCount(version) && step < Size(version)
    requires PairOf(version, cell.1) == k && cell.0 == StepRow(version, k, step)
    ensures cell !in Cells(version, k) && cell !in PairCells(version, k, step)
  {
    if cell in Cells(version, k) {
      var j := CellsVisited(version, k, cell);
    }
    if cell in PairCells(version, k, step) {
      PairCellsVisited(version, k, step, cell);
    }
  }

  /** Where the loop stands before pair k: the step over column 6 shifts the later pairs by one. */
  function LoopColumn(size: int, k: int): int {
    if size - 1 - 2 * k >= 6 then size - 1 - 2 * k else size - 2 - 2 * k
  }

  /** The loop's variables before pair k. */
  predicate AtPair(version: int, k: int, right: int, upward: bool) {
    0 <= k <= PairCount(version) && upward == (k % 2 == 0) && right == LoopColumn(Size(version), k)
  }

  lemma FirstPair(version: int)
    requires IsVersion(version)
    ensures AtPair(version, 0, Size(version) - 1, true)
  {
  }

  lemma NextPair(version: int, k: int, right: int, upward: bool, column: int)
    requires IsVersion(version) && AtPair(version, k, right, upward) && right > 0
    requires column == if right == 6 then right - 1 else right
    ensures 0 <= k < PairCount(version) && column == RightColumn(version, k) && upward == (k % 2 == 0)
    ensures AtPair(version, k + 1, column - 2, !upward)
  {
  }

  /** The loop ends after the last pair of columns. */
  lemma LoopEnds(version: int, k: int, right: int, upward: bool)
    requires IsVersion(version) && AtPair(version, k, right, upward) && right <= 0
    ensures k == PairCount(version)
  {
  }

  /** One turn of the loop: the pair at `right`, and where the loop goes next. */
  method PlaceTurn(m: Matrix, version: int, ghost k: nat, right: int, upward: bool, data: seq<Byte>, bitIndex: nat)
      returns (next: nat, nextRight: int)
    requires AtPair(version, k, right, upward) && right > 0 && Progress(m, version, k, 0, data, bitIndex)
    modifies m.modules
    ensures AtPair(version, k + 1, nextRight, !upward) && Progress(m, version, k + 1, 0, data, next)
    ensures nextRight < right
  {
    var col2 := if right == 6 then right - 1 else right;
    NextPair(version, k, right, upward, col2);
    next := PlacePair(m, version, k, col2, upward, data, bitIndex);
    nextRight := right;
    if col2 != right {
      nextRight := nextRight - 1;
    }
    nextRight := nextRight - 2;
  }

  /** The loop over the pairs of columns, from right to left. */
  method PlacePairs(m: Matrix, version: int, data: seq<Byte>) returns (bitIndex: nat)
    requires Progress(m, version, 0, 0, data, 0)
    modifies m.modules
    ensures Progress(m, version, PairCount(version), 0, data, bitIndex)
  {
    bitIndex := 0;
    var upward := true;
    var right := m.size - 1;
    ghost var k := 0;
    FirstPair(version);
    while right > 0
      invariant AtPair(version, k, right, upward) && Progress(m, version, k, 0, data, bitIndex)
      decreases right
    {
      bitIndex, right := PlaceTurn(m, version, k, right, upward, data, bitIndex);
      upward, k := !upward, k + 1;
    }
    LoopEnds(version, k, right, upward);
  }

  method PlaceData(m: Matrix, version: int, data: seq<Byte>)
    requires Reserves(m, version) && ShowsPatterns(m, version)
    modifies m.modules
    ensures Placed(m, DataCells(version), data)
    ensures ShowsPatterns(m, version)
  {
    PathStart(m, version, data);
    var bitIndex := PlacePairs(m, version, data);
    PathEnd(m, version, PairCount(version), data, bitIndex);
  }

  lemma PathStart(m: Matrix, version: int, data: seq<Byte>)
    requires Reserves(m, version) && ShowsPatterns(m, version)
    ensures Progress(m, version, 0, 0, data, 0)
  {
  }

  lemma PathEnd(m: Matrix, version: int, pairs: nat, data: seq<Byte>, bitIndex: nat)
    requires pairs == PairCount(version) && Progress(m, version, pairs, 0, data, bitIndex)
    ensures Placed(m, DataCells(version), data) && ShowsPatterns(m, version)
  {
    VisitedEnds(version, pairs);
  }
}
