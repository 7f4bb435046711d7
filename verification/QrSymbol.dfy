/** Masks and format bits: sections 7.8.2 and 7.9 of ISO/IEC 18004:2015. */
module QrSymbol {
  import opened QrLayout
  import opened QrPlacement

  /** Rows of modules; true is dark. */
  type Grid = seq<seq<bool>>

  // ---- masks (section 7.8.2) and format information (section 7.9) ----

  predicate Mask(mask: int, r: int, c: int) {
    match mask
    case 0 => (r + c) % 2 == 0
    case 1 => r % 2 == 0
    case 2 => c % 3 == 0
    case 3 => (r + c) % 3 == 0
    case 4 => (r / 2 + c / 3) % 2 == 0
    case 5 => (r * c) % 2 + (r * c) % 3 == 0
    case 6 => ((r * c) % 2 + (r * c) % 3) % 2 == 0
    case _ => ((r + c) % 2 + (r * c) % 3) % 2 == 0
  }

  /** The format string of level M for each mask. */
  function FormatM(mask: int): nat {
    match mask
    case 0 => 0x5412
    case 1 => 0x5125
    case 2 => 0x5e7c
    case 3 => 0x5b4b
    case 4 => 0x45f9
    case 5 => 0x40ce
    case 6 => 0x4f97
    case _ => 0x4aa0
  }

  /** Which bit of the format string a module carries, or -1. */
  function FormatIndex(size: int, r: int, c: int): int {
    if c == 8 && 0 <= r <= 5 then r
    else if c == 8 && r == 7 then 6
    else if c == 8 && r == 8 then 7
    else if c == 8 && size - 7 <= r < size then r - (size - 15)
    else if r == 8 && c == 7 then 8
    else if r == 8 && 0 <= c <= 5 then 14 - c
    else if r == 8 && size - 8 <= c < size then size - 1 - c
    else -1
  }

  /** The module beside the top-left finder that carries bit i. */
  function FormatCell(i: int): Cell {
    if i < 6 then (i, 8)
    else if i == 6 then (7, 8)
    else if i == 7 then (8, 8)
    else if i == 8 then (8, 7)
    else (8, 14 - i)
  }

  /** The second copy, beside the other two finders. */
  function SecondFormatCell(size: int, i: int): Cell {
    if i < 8 then (8, size - 1 - i) else (size - 15 + i, 8)
  }

  /** Bit i lives in exactly the two cells that the standard assigns to it. */
  lemma FormatCells(size: int, i: int)
    requires size >= 21 && 0 <= i < 15
    ensures forall r, c {:trigger FormatIndex(size, r, c)} ::
      FormatIndex(size, r, c) == i <==> ((r, c) == FormatCell(i) || (r, c) == SecondFormatCell(size, i))
    ensures 0 <= FormatCell(i).0 < size && 0 <= FormatCell(i).1 < size
    ensures 0 <= SecondFormatCell(size, i).0 < size && 0 <= SecondFormatCell(size, i).1 < size
  {
  }

  method ApplyMask(m: Matrix, mask: int) returns (copy: Matrix)
    requires m.Valid() && 0 <= mask < 8
    ensures copy.Valid() && copy.size == m.size && copy.reserved == m.reserved && fresh(copy) && fresh(copy.modules)
    ensures forall r, c :: m.In(r, c) ==> (
      copy.modules[r, c] == if m.reserved[r, c] then m.modules[r, c] else m.modules[r, c] != Mask(mask, r, c))
  {
    copy := new Matrix.Copy(m);
    var row := 0;
    while row < m.size
      invariant 0 <= row <= m.size
      invariant forall r, c :: m.In(r, c) ==> (
        copy.modules[r, c] == if m.reserved[r, c] || r >= row then m.modules[r, c]
          else m.modules[r, c] != Mask(mask, r, c))
    {
      var col := 0;
      while col < m.size
        invariant 0 <= col <= m.size
        invariant forall r, c :: m.In(r, c) ==> (
          copy.modules[r, c] == if m.reserved[r, c] || r > row || (r == row && c >= col) then m.modules[r, c]
                                else m.modules[r, c] != Mask(mask, r, c))
      {
        if !m.reserved[row, col] && Mask(mask, row, col) {
          copy.modules[row, col] := !m.modules[row, col];
        }
        col := col + 1;
      }
      row := row + 1;
    }
  }

  /** One bit in its two modules. */
  method WriteFormatBit(m: Matrix, i: int, bit: bool)
    requires m.Valid() && 0 <= i < 15
    modifies m.modules
    ensures forall r, c :: m.In(r, c) ==> (
      m.modules[r, c] == if FormatIndex(m.size, r, c) == i then bit else old(m.modules[r, c]))
  {
    FormatCells(m.size, i);
    if i < 6 {
      m.modules[i, 8] := bit;
    } else if i == 6 {
      m.modules[7, 8] := bit;
    } else if i == 7 {
      m.modules[8, 8] := bit;
    } else if i == 8 {
      m.modules[8, 7] := bit;
    } else {
      m.modules[8, 14 - i] := bit;
    }
    if i < 8 {
      m.modules[8, m.size - 1 - i] := bit;
    } else {
      m.modules[m.size - 15 + i, 8] := bit;
    }
  }

  method WriteFormat(m: Matrix, mask: int)
    requires m.Valid() && 0 <= mask < 8
    modifies m.modules
    ensures forall r, c :: m.In(r, c) ==> (
      m.modules[r, c] == if FormatIndex(m.size, r, c) >= 0 then BitAt(FormatM(mask), FormatIndex(m.size, r, c))
                         else old(m.modules[r, c]))
  {
    var bits := FormatM(mask);
    for i := 0 to 15
      invariant forall r, c :: m.In(r, c) ==> (
        m.modules[r, c] == if 0 <= FormatIndex(m.size, r, c) < i then BitAt(bits, FormatIndex(m.size, r, c))
                           else old(m.modules[r, c]))
    {
      WriteFormatBit(m, i, BitAt(bits, i));
    }
  }

  /** The matrix as rows. */
  method ToRows(m: Matrix) returns (rows: Grid)
    requires m.Valid()
    ensures |rows| == m.size && forall r :: 0 <= r < m.size ==> |rows[r]| == m.size
    ensures forall r, c :: m.In(r, c) ==> rows[r][c] == m.modules[r, c]
  {
    rows := [];
    for row := 0 to m.size
      invariant |rows| == row && forall r :: 0 <= r < row ==> |rows[r]| == m.size
      invariant forall r, c :: 0 <= r < row && m.In(r, c) ==> rows[r][c] == m.modules[r, c]
    {
      var line := [];
      for col := 0 to m.size
        invariant |line| == col && forall c :: 0 <= c < col ==> line[c] == m.modules[row, c]
      {
        line := line + [m.modules[row, col]];
      }
      rows := rows + [line];
    }
  }
}
