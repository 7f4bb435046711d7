/** How many data modules each version has, counted column by column. */
module QrCapacity {
  import opened QrEncoding
  import opened QrInterleaving
  import opened QrLayout

  /** The number of data modules of a column in rows lo..hi-1. */
  function FreeRows(version: int, col: int, lo: int, hi: int): nat
    decreases hi - lo
  {
    if hi <= lo then 0
    else FreeRows(version, col, lo, hi - 1) + (if IsFunction(version, hi - 1, col) then 0 else 1)
  }

  lemma {:induction false} FreeRowsSplit(version: int, col: int, lo: int, mid: int, hi: int)
    requires lo <= mid <= hi
    ensures FreeRows(version, col, lo, hi) == FreeRows(version, col, lo, mid) + FreeRows(version, col, mid, hi)
    decreases hi - mid
  {
    if mid < hi {
      FreeRowsSplit(version, col, lo, mid, hi - 1);
    }
  }

  /** No function module in rows lo..hi-1 of the column. */
  ghost predicate Clear(version: int, col: int, lo: int, hi: int) {
    forall row :: lo <= row < hi ==> !IsFunction(version, row, col)
  }

  lemma {:induction false} ClearRun(version: int, col: int, lo: int, hi: int)
    requires lo <= hi && Clear(version, col, lo, hi)
    ensures FreeRows(version, col, lo, hi) == hi - lo
    decreases hi - lo
  {
    if lo < hi {
      ClearRun(version, col, lo, hi - 1);
    }
  }

  /** Only function modules in rows lo..hi-1 of the column. */
  ghost predicate Taken(version: int, col: int, lo: int, hi: int) {
    forall row :: lo <= row < hi ==> IsFunction(version, row, col)
  }

  lemma {:induction false} TakenRun(version: int, col: int, lo: int, hi: int)
    requires lo <= hi && Taken(version, col, lo, hi)
    ensures FreeRows(version, col, lo, hi) == 0
    decreases hi - lo
  {
    if lo < hi {
      TakenRun(version, col, lo, hi - 1);
    }
  }

  /** Two clear runs of a column, and function modules around them. */
  lemma TwoRuns(version: int, col: int, lo: int, a: int, b: int, c: int, d: int, hi: int)
    requires lo <= a <= b <= c <= d <= hi && Clear(version, col, a, b) && Clear(version, col, c, d)
    requires Taken(version, col, lo, a) && Taken(version, col, b, c) && Taken(version, col, d, hi)
    ensures FreeRows(version, col, lo, hi) == b - a + d - c
  {
    FreeRowsSplit(version, col, lo, a, hi);
    FreeRowsSplit(version, col, a, b, hi);
    FreeRowsSplit(version, col, b, c, hi);
    FreeRowsSplit(version, col, c, d, hi);
    ClearRun(version, col, a, b);
    ClearRun(version, col, c, d);
    TakenRun(version, col, lo, a);
    TakenRun(version, col, b, c);
    TakenRun(version, col, d, hi);
  }

  /** Data modules of column col. */
  function ColumnCapacity(version: int, col: int): int {
    var s := Size(version);
    var m := Middle(version);
    if version < 7 then
      if col < 9 then s - 17
      else if col < s - 9 then s - 1
      else if version == 1 then (if col < s - 8 then s - 1 else s - 9)
      else if col == s - 9 then s - 6
      else if col < s - 4 then s - 14
      else s - 9
    else
      if col < 4 then s - 20
      else if col < 6 then s - 25
      else if col < 9 then s - 22
      else if Near(col, m) then s - 15
      else if col < s - 11 then s - 1
      else if col < s - 9 then s - 7
      else if col == s - 9 then s - 17
      else if col < s - 4 then s - 19
      else s - 9
  }

  lemma FirstColumn(version: int, col: int)
    requires version == 1 && 0 <= col < Size(version) && col != 6
    ensures FreeRows(version, col, 0, Size(version)) == ColumnCapacity(version, col)
  {
    var s := Size(version);
    if col < 9 {
      TwoRuns(version, col, 0, 9, s - 8, s - 8, s - 8, s);
    } else if col < s - 8 {
      TwoRuns(version, col, 0, 0, 6, 7, s, s);
    } else {
      TwoRuns(version, col, 0, 9, s, s, s, s);
    }
  }

  lemma SmallColumn(version: int, col: int)
    requires 2 <= version < 7 && 0 <= col < Size(version) && col != 6
    ensures FreeRows(version, col, 0, Size(version)) == ColumnCapacity(version, col)
  {
    var s := Size(version);
    if col < 9 {
      TwoRuns(version, col, 0, 9, s - 8, s - 8, s - 8, s);
    } else if col < s - 9 {
      TwoRuns(version, col, 0, 0, 6, 7, s, s);
    } else if col == s - 9 {
      FreeRowsSplit(version, col, 0, 6, s);
      ClearRun(version, col, 0, 6);
      TwoRuns(version, col, 6, 7, s - 9, s - 4, s, s);
    } else if col < s - 4 {
      TwoRuns(version, col, 0, 9, s - 9, s - 4, s, s);
    } else {
      TwoRuns(version, col, 0, 9, s, s, s, s);
    }
  }

  lemma LargeColumn(version: int, col: int)
    requires 7 <= version <= 10 && 0 <= col < Size(version) && col != 6
    ensures FreeRows(version, col, 0, Size(version)) == ColumnCapacity(version, col)
  {
    var s := Size(version);
    var m := Middle(version);
    if col < 4 {
      TwoRuns(version, col, 0, 9, s - 11, s - 11, s - 11, s);
    } else if col < 6 {
      TwoRuns(version, col, 0, 9, m - 2, m + 3, s - 11, s);
    } else if col < 9 {
      TwoRuns(version, col, 0, 9, m - 2, m + 3, s - 8, s);
    } else if Near(col, m) {
      FreeRowsSplit(version, col, 0, m, s);
      TwoRuns(version, col, 0, 0, 4, 9, m - 2, m);
      TwoRuns(version, col, m, m + 3, s - 9, s - 4, s, s);
    } else if col < s - 11 {
      TwoRuns(version, col, 0, 0, 6, 7, s, s);
    } else if col < s - 9 {
      TwoRuns(version, col, 0, 7, s, s, s, s);
    } else if col < s - 4 {
      FreeRowsSplit(version, col, 0, m, s);
      TwoRuns(version, col, 0, if col == s - 9 then 7 else 9, m - 2, m - 2, m - 2, m);
      TwoRuns(version, col, m, m + 3, s - 9, s - 4, s, s);
    } else {
      TwoRuns(version, col, 0, 9, s, s, s, s);
    }
  }

  // ---- from columns to the path ----

  /** Data modules that the first n rows of pair k have in a column. */
  function PairRows(version: int, k: int, n: nat, col: int): nat {
    if k % 2 == 0 then FreeRows(version, col, Size(version) - n, Size(version)) else FreeRows(version, col, 0, n)
  }

  lemma PairRowsNext(version: int, k: int, n: nat, col: int, s: int)
    requires n < s == Size(version)
    ensures PairRows(version, k, n + 1, col) ==
            PairRows(version, k, n, col) + if IsFunction(version, StepRow(version, k, n), col) then 0 else 1
  {
    if k % 2 == 0 {
      FreeRowsSplit(version, col, s - n - 1, s - n, s);
    }
  }

  lemma {:induction false} PairLength(version: int, k: int, n: nat, right: int)
    requires n <= Size(version) && right == RightColumn(version, k)
    ensures |PairCells(version, k, n)| == PairRows(version, k, n, right) + PairRows(version, k, n, right - 1)
  {
    if n > 0 {
      PairLength(version, k, n - 1, right);
      PairRowsNext(version, k, n - 1, right, Size(version));
      PairRowsNext(version, k, n - 1, right - 1, Size(version));
    }
  }

  /** The capacity of columns lo..hi-1. */
  function Capacity(version: int, lo: int, hi: int): int
    decreases hi - lo
  {
    if hi <= lo then 0 else ColumnCapacity(version, lo) + Capacity(version, lo + 1, hi)
  }

  lemma ColumnBound(version: int, col: int)
    requires IsVersion(version) && 0 <= col < Size(version) && col != 6
    ensures FreeRows(version, col, 0, Size(version)) == ColumnCapacity(version, col)
  {
    if version == 1 {
      FirstColumn(version, col);
    } else if version < 7 {
      SmallColumn(version, col);
    } else {
      LargeColumn(version, col);
    }
  }

  lemma PairCapacity(version: int, k: int, right: int)
    requires IsVersion(version) && 0 <= k < PairCount(version) && right == RightColumn(version, k)
    ensures |PairCells(version, k, Size(version))| ==
      ColumnCapacity(version, right) + ColumnCapacity(version, right - 1)
  {
    PairLength(version, k, Size(version), right);
    ColumnBound(version, right);
    ColumnBound(version, right - 1);
  }

  lemma CapacityStep(version: int, lo: int, hi: int)
    requires lo + 2 <= hi
    ensures Capacity(version, lo, hi)
         == ColumnCapacity(version, lo) + ColumnCapacity(version, lo + 1) + Capacity(version, lo + 2, hi)
  {
    assert Capacity(version, lo + 1, hi) == ColumnCapacity(version, lo + 1) + Capacity(version, lo + 2, hi);
  }

  /** The capacity of the columns that n pairs cover. */
  function Covered(version: int, n: nat): int {
    var s := Size(version);
    if s - 2 * n >= 7 then Capacity(version, s - 2 * n, s)
    else Capacity(version, s - 1 - 2 * n, 6) + Capacity(version, 7, s)
  }

  lemma CoveredRight(version: int, n: nat, lo: int, s: int)
    requires s == Size(version) && lo == s - 2 * n && lo >= 9
    ensures Covered(version, n + 1) ==
      Covered(version, n) + ColumnCapacity(version, lo - 2) + ColumnCapacity(version, lo - 1)
  {
    CapacityStep(version, lo - 2, s);
  }

  lemma CoveredLeft(version: int, n: nat, lo: int, s: int)
    requires s == Size(version) && lo == s - 1 - 2 * n && 2 <= lo <= 6
    ensures Covered(version, n + 1) ==
      Covered(version, n) + ColumnCapacity(version, lo - 2) + ColumnCapacity(version, lo - 1)
  {
    CapacityStep(version, lo - 2, 6);
  }

  lemma CoveredStep(version: int, n: nat, right: int)
    requires IsVersion(version) && n < PairCount(version) && right == RightColumn(version, n)
    ensures Covered(version, n + 1) ==
      Covered(version, n) + ColumnCapacity(version, right - 1) + ColumnCapacity(version, right)
  {
    var s := Size(version);
    if s - 2 * n >= 9 {
      CoveredRight(version, n, s - 2 * n, s);
    } else {
      CoveredLeft(version, n, s - 1 - 2 * n, s);
    }
  }

  lemma CellsNext(version: int, n: nat, m: nat, size: nat)
    requires IsVersion(version) && m == n + 1 && size == Size(version)
    ensures |Cells(version, m)| == |Cells(version, n)| + |PairCells(version, n, size)|
  {
  }

  lemma CoveredNext(version: int, n: nat, m: nat, size: nat, right: int)
    requires IsVersion(version) && n < PairCount(version) && m == n + 1 && size == Size(version)
    requires right == RightColumn(version, n)
    ensures Covered(version, m) == Covered(version, n) + |PairCells(version, n, size)|
  {
    PairCapacity(version, n, right);
    CoveredStep(version, n, right);
  }

  lemma CellsStep(version: int, n: nat, m: nat)
    requires IsVersion(version) && n < PairCount(version) && m == n + 1
    requires |Cells(version, n)| == Covered(version, n)
    ensures |Cells(version, m)| == Covered(version, m)
  {
    CellsNext(version, n, m, Size(version));
    CoveredNext(version, n, m, Size(version), RightColumn(version, n));
  }

  lemma {:induction false} CellsCapacity(version: int, n: nat)
    requires IsVersion(version) && n <= PairCount(version)
    ensures |Cells(version, n)| == Covered(version, n)
  {
    if n > 0 {
      CellsCapacity(version, n - 1);
      CellsStep(version, n - 1, n);
    }
  }

  /** A run of columns of equal capacity. */
  lemma {:induction false} CapacityRun(version: int, lo: int, mid: int, hi: int, k: int)
    requires lo <= mid <= hi && forall col :: lo <= col < mid ==> ColumnCapacity(version, col) == k
    ensures Capacity(version, lo, hi) == k * (mid - lo) + Capacity(version, mid, hi)
    decreases mid - lo
  {
    if lo < mid {
      CapacityRun(version, lo + 1, mid, hi, k);
      assert k * (mid - lo) == k * (mid - (lo + 1)) + k;
    }
  }

  lemma FirstCapacity(version: int, s: int)
    requires version == 1 && s == Size(version)
    ensures Capacity(version, 0, 6) + Capacity(version, 7, s) == 208
  {
    CapacityRun(version, 0, 6, 6, s - 17);
    CapacityRun(version, 7, 9, s, s - 17);
    CapacityRun(version, 9, s - 8, s, s - 1);
    CapacityRun(version, s - 8, s, s, s - 9);
  }

  lemma SmallCapacity(version: int, s: int)
    requires 2 <= version < 7 && s == Size(version)
    ensures Capacity(version, 0, 6) + Capacity(version, 7, s)
         == 8 * (s - 17) + (s - 1) * (s - 18) + (s - 6) + 4 * (s - 14) + 4 * (s - 9)
  {
    SmallCapacityLeft(version, s);
    CapacityRun(version, 9, s - 9, s, s - 1);
    SmallCapacityRight(version, s);
  }

  lemma SmallCapacityLeft(version: int, s: int)
    requires 2 <= version < 7 && s == Size(version)
    ensures Capacity(version, 0, 6) == 6 * (s - 17)
    ensures Capacity(version, 7, s) == 2 * (s - 17) + Capacity(version, 9, s)
  {
    CapacityRun(version, 0, 6, 6, s - 17);
    CapacityRun(version, 7, 9, s, s - 17);
  }

  lemma SmallCapacityRight(version: int, s: int)
    requires 2 <= version < 7 && s == Size(version)
    ensures Capacity(version, s - 9, s) == (s - 6) + 4 * (s - 14) + 4 * (s - 9)
  {
    CapacityRun(version, s - 9, s - 8, s, s - 6);
    CapacityRun(version, s - 8, s - 4, s, s - 14);
    CapacityRun(version, s - 4, s, s, s - 9);
  }

  lemma LargeCapacity(version: int, s: int, m: int)
    requires 7 <= version <= 10 && s == Size(version) && m == Middle(version)
    ensures Capacity(version, 0, 6) + Capacity(version, 7, s)
         == 4 * (s - 20) + 2 * (s - 25) + 2 * (s - 22) + (s - 1) * (m - 11) + 5 * (s - 15) + (s - 1) * (s - 14 - m)
            + 2 * (s - 7) + (s - 17) + 4 * (s - 19) + 4 * (s - 9)
  {
    CapacityRun(version, 0, 4, 6, s - 20);
    CapacityRun(version, 4, 6, 6, s - 25);
    CapacityRun(version, 7, 9, s, s - 22);
    LargeCapacityMiddle(version, s, m);
    LargeCapacityRight(version, s);
  }

  lemma LargeCapacityMiddle(version: int, s: int, m: int)
    requires 7 <= version <= 10 && s == Size(version) && m == Middle(version)
    ensures Capacity(version, 9, s)
         == (s - 1) * (m - 11) + 5 * (s - 15) + (s - 1) * (s - 14 - m) + Capacity(version, s - 11, s)
  {
    CapacityRun(version, 9, m - 2, s, s - 1);
    CapacityRun(version, m - 2, m + 3, s, s - 15);
    CapacityRun(version, m + 3, s - 11, s, s - 1);
  }

  lemma LargeCapacityRight(version: int, s: int)
    requires 7 <= version <= 10 && s == Size(version)
    ensures Capacity(version, s - 11, s) == 2 * (s - 7) + (s - 17) + 4 * (s - 19) + 4 * (s - 9)
  {
    CapacityRun(version, s - 11, s - 9, s, s - 7);
    CapacityRun(version, s - 9, s - 8, s, s - 17);
    CapacityRun(version, s - 8, s - 4, s, s - 19);
    CapacityRun(version, s - 4, s, s, s - 9);
  }

  /** Data and correction codewords per version, table 9 of the standard. */
  function CodewordCount(version: int): int
    requires IsVersion(version)
  {
    match version
    case 1 => 26
    case 2 => 44
    case 3 => 70
    case 4 => 100
    case 5 => 134
    case 6 => 172
    case 7 => 196
    case 8 => 242
    case 9 => 292
    case _ => 346
  }

  lemma SymbolLengthTable(version: int)
    requires IsVersion(version)
    ensures SymbolLength(EccM(version)) == CodewordCount(version)
  {
    var spec := EccM(version);
    RowStartProduct(spec.g1Data, BlockCount(spec));
    RowStartProduct(spec.ecPerBlock, BlockCount(spec));
  }

  lemma ModulesSmall(version: int, s: int)
    requires 2 <= version < 7 && s == Size(version)
    ensures (8 * (s - 17) + (s - 1) * (s - 18) + (s - 6) + 4 * (s - 14) + 4 * (s - 9)) / 8 == CodewordCount(version)
  {
  }

  lemma ModulesLarge(version: int, s: int, m: int)
    requires 7 <= version <= 10 && s == Size(version) && m == Middle(version)
    ensures (4 * (s - 20) + 2 * (s - 25) + 2 * (s - 22) + (s - 1) * (m - 11) + 5 * (s - 15) + (s - 1) * (s - 14 - m)
            + 2 * (s - 7) + (s - 17) + 4 * (s - 19) + 4 * (s - 9)) / 8 == CodewordCount(version)
  {
  }

  lemma ModulesOfVersion(version: int, s: int)
    requires IsVersion(version) && s == Size(version)
    ensures (Capacity(version, 0, 6) + Capacity(version, 7, s)) / 8 == CodewordCount(version)
  {
    if version == 1 {
      FirstCapacity(version, s);
    } else if version < 7 {
      SmallCapacity(version, s);
      ModulesSmall(version, s);
    } else {
      LargeCapacity(version, s, Middle(version));
      ModulesLarge(version, s, Middle(version));
    }
  }

  /** The data and correction codewords of every version fill its symbol, up to a rest of less than a codeword. */
  lemma SymbolFits(version: int)
    requires IsVersion(version)
    ensures SymbolLength(EccM(version)) == CodewordCount(version) == |DataCells(version)| / 8
  {
    SymbolLengthTable(version);
    CellsCapacity(version, PairCount(version));
    ModulesOfVersion(version, Size(version));
  }
}
