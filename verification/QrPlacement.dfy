/** The module matrix and the placement of function patterns and data: section 7.7 of ISO/IEC 18004:2015. */
module QrPlacement {
  import opened Arithmetic
  import opened Bits
  import opened QrEncoding
  import opened QrLayout

  class Matrix {
    const size: int
    const modules: array2<bool>
    const reserved: array2<bool>

    ghost predicate Valid() {
      && size >= 21 && modules != reserved
      && modules.Length0 == size && modules.Length1 == size
      && reserved.Length0 == size && reserved.Length1 == size
    }

    predicate In(row: int, col: int) {
      0 <= row < size && 0 <= col < size
    }

    constructor (n: int)
      requires n >= 21
      ensures Valid() && size == n && fresh(modules) && fresh(reserved)
      ensures forall r, c :: In(r, c) ==> !modules[r, c] && !reserved[r, c]
    {
      size := n;
      modules := new bool[n, n]((r, c) => false);
      reserved := new bool[n, n]((r, c) => false);
    }

    /** A copy of the modules that shares the reservation map. */
    constructor Copy(m: Matrix)
      requires m.Valid()
      ensures Valid() && size == m.size && reserved == m.reserved && fresh(modules)
      ensures forall r, c :: In(r, c) ==> modules[r, c] == m.modules[r, c]
    {
      size := m.size;
      reserved := m.reserved;
      modules := new bool[m.size, m.size](
        (r, c) reads m, m.modules requires m.Valid() && m.In(r, c) => m.modules[r, c]);
    }

    method Set(row: int, col: int, value: bool)
      requires Valid() && In(row, col)
      modifies modules, reserved
      ensures forall r, c :: In(r, c) ==>
        modules[r, c] == (if (r, c) == (row, col) then value else old(modules[r, c]))
      ensures forall r, c :: In(r, c) ==> reserved[r, c] == ((r, c) == (row, col) || old(reserved[r, c]))
    {
      modules[row, col] := value;
      reserved[row, col] := true;
    }
  }

  // ---- what each pattern paints ----

  function Max(a: int, b: int): int {
    if a < b then b else a
  }

  /** A finder's 7x7 modules and its one-module separator; (0, 0) is the finder's corner. */
  predicate FinderBox(r: int, c: int) {
    -1 <= r <= 7 && -1 <= c <= 7
  }

  /** Dark rings at distance 3 and at most 1 from the centre; light at 2 and on the separator. */
  predicate FinderDark(r: int, c: int) {
    var d := Max(Abs(r - 3), Abs(c - 3));
    d == 3 || d <= 1
  }

  method Finder(m: Matrix, top: int, left: int)
    requires m.Valid() && 0 <= top <= m.size - 7 && 0 <= left <= m.size - 7
    modifies m.modules, m.reserved
    ensures forall r, c :: m.In(r, c) ==> m.reserved[r, c] == (FinderBox(r - top, c - left) || old(m.reserved[r, c]))
    ensures forall r, c :: m.In(r, c) ==> (
      m.modules[r, c] == (if FinderBox(r - top, c - left) then FinderDark(r - top, c - left) else old(m.modules[r, c])))
  {
    var r := -1;
    while r <= 7
      invariant -1 <= r <= 8
      invariant forall i, j :: m.In(i, j) ==> (
        m.reserved[i, j] == ((i - top < r && FinderBox(i - top, j - left)) || old(m.reserved[i, j])))
      invariant forall i, j :: m.In(i, j) ==> (
        m.modules[i, j] == (if i - top < r && FinderBox(i - top, j - left) then FinderDark(i - top, j - left)
          else old(m.modules[i, j])))
    {
      FinderRow(m, top, left, r);
      r := r + 1;
    }
  }

  method FinderRow(m: Matrix, top: int, left: int, r: int)
    requires m.Valid() && 0 <= top <= m.size - 7 && 0 <= left <= m.size - 7 && -1 <= r <= 7
    modifies m.modules, m.reserved
    ensures forall i, j :: m.In(i, j) ==> (
      m.reserved[i, j] == ((i - top == r && FinderBox(i - top, j - left)) || old(m.reserved[i, j])))
    ensures forall i, j :: m.In(i, j) ==> (
      m.modules[i, j] == (if i - top == r && FinderBox(i - top, j - left) then FinderDark(i - top, j - left)
        else old(m.modules[i, j])))
  {
    var c := -1;
    while c <= 7
      invariant -1 <= c <= 8
      invariant forall i, j :: m.In(i, j) ==> (
        m.reserved[i, j] == ((i - top == r && -1 <= j - left < c) || old(m.reserved[i, j])))
      invariant forall i, j :: m.In(i, j) ==> (
        m.modules[i, j] == (if i - top == r && -1 <= j - left < c then FinderDark(i - top, j - left)
          else old(m.modules[i, j])))
    {
      var row, col := top + r, left + c;
      if m.In(row, col) {
        var inRing := 0 <= r <= 6 && 0 <= c <= 6;
        var dark := inRing && (r == 0 || r == 6 || c == 0 || c == 6 || (2 <= r <= 4 && 2 <= c <= 4));
        m.Set(row, col, dark);
      }
      c := c + 1;
    }
  }

  method Timing(m: Matrix)
    requires m.Valid()
    modifies m.modules, m.reserved
    ensures forall r, c :: m.In(r, c) ==> m.reserved[r, c] == (InTiming(m.size, r, c) || old(m.reserved[r, c]))
    ensures forall r, c :: m.In(r, c) ==> (
      m.modules[r, c] == if InTiming(m.size, r, c) then (r + c) % 2 == 0 else old(m.modules[r, c]))
  {
    var i := 8;
    while i < m.size - 8
      invariant 8 <= i <= m.size - 8
      invariant forall r, c :: m.In(r, c) ==> (
        m.reserved[r, c] == ((InTiming(m.size, r, c) && r < i && c < i) || old(m.reserved[r, c])))
      invariant forall r, c :: m.In(r, c) ==> (
        m.modules[r, c] == if InTiming(m.size, r, c) && r < i && c < i then (r + c) % 2 == 0 else old(m.modules[r, c]))
    {
      m.Set(6, i, i % 2 == 0);
      m.Set(i, 6, i % 2 == 0);
      i := i + 1;
    }
  }

  /** The alternating row and column between the finders. */
  predicate InTiming(size: int, r: int, c: int) {
    (r == 6 && 8 <= c < size - 8) || (c == 6 && 8 <= r < size - 8)
  }

  // ---- alignment patterns ----

  /** The coordinates of alignment pattern centres. */
  function Alignment(version: int): seq<int>
    requires IsVersion(version)
  {
    match version
    case 1 => []
    case 2 => [6, 18]
    case 3 => [6, 22]
    case 4 => [6, 26]
    case 5 => [6, 30]
    case 6 => [6, 34]
    case 7 => [6, 22, 38]
    case 8 => [6, 24, 42]
    case 9 => [6, 26, 46]
    case _ => [6, 28, 50]
  }

  predicate NearFinder(size: int, row: int, col: int) {
    (row <= 8 && col <= 8) || (row <= 8 && col >= size - 9) || (row >= size - 9 && col <= 8)
  }

  predicate AlignmentDark(r: int, c: int) {
    Max(Abs(r), Abs(c)) != 1
  }

  method AlignmentBox(m: Matrix, row: int, col: int)
    requires m.Valid() && 2 <= row < m.size - 2 && 2 <= col < m.size - 2
    modifies m.modules, m.reserved
    ensures forall r, c :: m.In(r, c) ==> m.reserved[r, c] == ((Near(r, row) && Near(c, col)) || old(m.reserved[r, c]))
    ensures forall r, c :: m.In(r, c) ==> (
      m.modules[r, c] == if Near(r, row) && Near(c, col) then AlignmentDark(r - row, c - col) else old(m.modules[r, c]))
  {
    var r := -2;
    while r <= 2
      invariant -2 <= r <= 3
      invariant forall i, j :: m.In(i, j) ==> (
        m.reserved[i, j] == ((Near(i, row) && i - row < r && Near(j, col)) || old(m.reserved[i, j])))
      invariant forall i, j :: m.In(i, j) ==> (
        m.modules[i, j] == if Near(i, row) && i - row < r && Near(j, col) then AlignmentDark(i - row, j - col)
                           else old(m.modules[i, j]))
    {
      AlignmentRow(m, row, col, r);
      r := r + 1;
    }
  }

  method AlignmentRow(m: Matrix, row: int, col: int, r: int)
    requires m.Valid() && 2 <= row < m.size - 2 && 2 <= col < m.size - 2 && -2 <= r <= 2
    modifies m.modules, m.reserved
    ensures forall i, j :: m.In(i, j) ==> (
      m.reserved[i, j] == ((i - row == r && Near(j, col)) || old(m.reserved[i, j])))
    ensures forall i, j :: m.In(i, j) ==> (
      m.modules[i, j] == if i - row == r && Near(j, col) then AlignmentDark(r, j - col) else old(m.modules[i, j]))
  {
    var c := -2;
    while c <= 2
      invariant -2 <= c <= 3
      invariant forall i, j :: m.In(i, j) ==> (
        m.reserved[i, j] == ((i - row == r && -2 <= j - col < c) || old(m.reserved[i, j])))
      invariant forall i, j :: m.In(i, j) ==> (
        m.modules[i, j] == if i - row == r && -2 <= j - col < c then AlignmentDark(r, j - col)
          else old(m.modules[i, j]))
    {
      m.Set(row + r, col + c, Max(Abs(r), Abs(c)) != 1);
      c := c + 1;
    }
  }

  /** The index of the centre within reach of coordinate x, or -1. */
  function CentreIndex(version: int, x: int): int {
    var far := Size(version) - 7;
    if version < 2 then -1
    else if Near(x, 6) then 0
    else if version < 7 then (if Near(x, far) then 1 else -1)
    else if Near(x, Middle(version)) then 1
    else if Near(x, far) then 2
    else -1
  }

  /** The centre within reach, when there is one. */
  function Centre(version: int, x: int): int {
    if Near(x, 6) then 6 else if version >= 7 && Near(x, Middle(version)) then Middle(version) else Size(version) - 7
  }

  lemma AlignmentCentres(version: int, x: int)
    requires IsVersion(version)
    ensures forall i :: 0 <= i < |Alignment(version)| ==>
      (Near(x, Alignment(version)[i]) <==> CentreIndex(version, x) == i)
    ensures CentreIndex(version, x) < |Alignment(version)|
    ensures CentreIndex(version, x) >= 0 ==> Alignment(version)[CentreIndex(version, x)] == Centre(version, x)
  {
  }

  /** A module of an alignment pattern whose centre is one of the first j of row i of the loops over the centres. */
  predicate InAlignmentRow(version: int, r: int, c: int, i: int, j: int) {
    var (a, b) := (CentreIndex(version, r), CentreIndex(version, c));
    && a == i && 0 <= b < j && !NearFinder(Size(version), Centre(version, r), Centre(version, c))
  }

  /** A module of an alignment pattern whose centre is in one of the first i rows. */
  predicate AlignmentBefore(version: int, r: int, c: int, i: int) {
    var (a, b) := (CentreIndex(version, r), CentreIndex(version, c));
    && 0 <= a < i && b >= 0 && !NearFinder(Size(version), Centre(version, r), Centre(version, c))
  }

  function AlignmentValue(version: int, r: int, c: int): bool {
    AlignmentDark(r - Centre(version, r), c - Centre(version, c))
  }

  lemma AlignmentRegion(version: int, r: int, c: int)
    requires IsVersion(version) && InGrid(version, r, c)
    ensures AlignmentBefore(version, r, c, |Alignment(version)|) <==> InAlignment(version, r, c)
  {
  }

  /** The patterns whose centres lie in the i-th row of centres. */
  method AlignmentCentreRow(m: Matrix, version: int, i: int)
    requires m.Valid() && IsVersion(version) && m.size == Size(version) && 0 <= i < |Alignment(version)|
    modifies m.modules, m.reserved
    ensures forall r, c :: m.In(r, c) ==> (
      m.reserved[r, c] == (InAlignmentRow(version, r, c, i, |Alignment(version)|) || old(m.reserved[r, c])))
    ensures forall r, c :: m.In(r, c) ==> (
      m.modules[r, c] == if InAlignmentRow(version, r, c, i, |Alignment(version)|) then AlignmentValue(version, r, c)
                         else old(m.modules[r, c]))
  {
    var centers := Alignment(version);
    for j := 0 to |centers|
      invariant forall r, c :: m.In(r, c) ==> (
        m.reserved[r, c] == (InAlignmentRow(version, r, c, i, j) || old(m.reserved[r, c])))
      invariant forall r, c :: m.In(r, c) ==> (
        m.modules[r, c] == if InAlignmentRow(version, r, c, i, j) then AlignmentValue(version, r, c)
                           else old(m.modules[r, c]))
    {
      CentresInside(version, i, j);
      AlignmentStep(version, i, j);
      if !NearFinder(m.size, centers[i], centers[j]) {
        AlignmentBox(m, centers[i], centers[j]);
      }
    }
  }

  method AlignmentPatterns(m: Matrix, version: int)
    requires m.Valid() && IsVersion(version) && m.size == Size(version)
    modifies m.modules, m.reserved
    ensures forall r, c :: m.In(r, c) ==> m.reserved[r, c] == (InAlignment(version, r, c) || old(m.reserved[r, c]))
    ensures forall r, c :: m.In(r, c) ==> (
      m.modules[r, c] == if InAlignment(version, r, c) then AlignmentValue(version, r, c) else old(m.modules[r, c]))
  {
    var centers := Alignment(version);
    for i := 0 to |centers|
      invariant forall r, c :: m.In(r, c) ==> (
        m.reserved[r, c] == (AlignmentBefore(version, r, c, i) || old(m.reserved[r, c])))
      invariant forall r, c :: m.In(r, c) ==> (
        m.modules[r, c] == if AlignmentBefore(version, r, c, i) then AlignmentValue(version, r, c)
                           else old(m.modules[r, c]))
    {
      AlignmentCentreRow(m, version, i);
      AlignmentNextRow(version, i);
    }
    forall r, c | m.In(r, c)
      ensures AlignmentBefore(version, r, c, |centers|) <==> InAlignment(version, r, c)
    {
      AlignmentRegion(version, r, c);
    }
  }

  lemma CentresInside(version: int, i: int, j: int)
    requires IsVersion(version) && 0 <= i < |Alignment(version)| && 0 <= j < |Alignment(version)|
    ensures 2 <= Alignment(version)[i] < Size(version) - 2 && 2 <= Alignment(version)[j] < Size(version) - 2
  {
  }

  /** Painting one box moves the loop position past its pair of centres. */
  lemma AlignmentStep(version: int, i: int, j: int)
    requires IsVersion(version) && 0 <= i < |Alignment(version)| && 0 <= j < |Alignment(version)|
    ensures var (a, b) := (Alignment(version)[i], Alignment(version)[j]);
      forall r, c {:trigger InAlignmentRow(version, r, c, i, j + 1)} ::
        && (InAlignmentRow(version, r, c, i, j + 1) <==>
              InAlignmentRow(version, r, c, i, j) || (!NearFinder(Size(version), a, b) && Near(r, a) && Near(c, b)))
        && (Near(r, a) && Near(c, b) ==> AlignmentValue(version, r, c) == AlignmentDark(r - a, c - b))
  {
    forall r: int, c: int
      ensures var (a, b) := (Alignment(version)[i], Alignment(version)[j]);
        && (InAlignmentRow(version, r, c, i, j + 1) <==>
              InAlignmentRow(version, r, c, i, j) || (!NearFinder(Size(version), a, b) && Near(r, a) && Near(c, b)))
        && (Near(r, a) && Near(c, b) ==> AlignmentValue(version, r, c) == AlignmentDark(r - a, c - b))
    {
      AlignmentCentres(version, r);
      AlignmentCentres(version, c);
    }
  }

  lemma AlignmentNextRow(version: int, i: int)
    requires IsVersion(version) && 0 <= i < |Alignment(version)|
    ensures forall r, c {:trigger AlignmentBefore(version, r, c, i + 1)} ::
      AlignmentBefore(version, r, c, i + 1) <==>
      AlignmentBefore(version, r, c, i) || InAlignmentRow(version, r, c, i, |Alignment(version)|)
  {
    forall r: int, c: int
      ensures AlignmentBefore(version, r, c, i + 1) <==>
              AlignmentBefore(version, r, c, i) || InAlignmentRow(version, r, c, i, |Alignment(version)|)
    {
      AlignmentCentres(version, c);
    }
  }

  // ---- format and version areas ----

  method ReserveIfFree(m: Matrix, row: int, col: int)
    requires m.Valid() && m.In(row, col)
    modifies m.modules, m.reserved
    ensures forall r, c :: m.In(r, c) ==> m.reserved[r, c] == ((r, c) == (row, col) || old(m.reserved[r, c]))
    ensures forall r, c :: m.In(r, c) ==> (
      m.modules[r, c] == if (r, c) == (row, col) && !old(m.reserved[r, c]) then false else old(m.modules[r, c]))
  {
    if !m.reserved[row, col] {
      m.Set(row, col, false);
    }
  }

  /** The format modules that come before index i in the two reservation loops. */
  predicate FormatBefore(size: int, r: int, c: int, i: int, j: int) {
    (r == 8 && (c < i || c >= size - j)) || (c == 8 && (r < i || r >= size - j))
  }

  method ReserveFormat(m: Matrix)
    requires m.Valid()
    modifies m.modules, m.reserved
    ensures forall r, c :: m.In(r, c) ==>
      m.reserved[r, c] == (FormatBefore(m.size, r, c, 9, 8) || old(m.reserved[r, c]))
    ensures forall r, c :: m.In(r, c) ==> (
      m.modules[r, c] == if FormatBefore(m.size, r, c, 9, 8) && !old(m.reserved[r, c]) then false
                         else old(m.modules[r, c]))
  {
    for i := 0 to 9
      invariant forall r, c :: m.In(r, c) ==> (
        m.reserved[r, c] == (FormatBefore(m.size, r, c, i, 0) || old(m.reserved[r, c])))
      invariant forall r, c :: m.In(r, c) ==> (
        m.modules[r, c] == if FormatBefore(m.size, r, c, i, 0) && !old(m.reserved[r, c]) then false
                           else old(m.modules[r, c]))
    {
      ReserveIfFree(m, 8, i);
      ReserveIfFree(m, i, 8);
    }
    for i := 0 to 8
      invariant forall r, c :: m.In(r, c) ==> (
        m.reserved[r, c] == (FormatBefore(m.size, r, c, 9, i) || old(m.reserved[r, c])))
      invariant forall r, c :: m.In(r, c) ==> (
        m.modules[r, c] == if FormatBefore(m.size, r, c, 9, i) && !old(m.reserved[r, c]) then false
                           else old(m.modules[r, c]))
    {
      ReserveIfFree(m, 8, m.size - 1 - i);
      ReserveIfFree(m, m.size - 1 - i, 8);
    }
  }

  /** The version strings, with their error correction. */
  function VersionInfo(version: int): nat {
    if version == 7 then 0x07c94 else if version == 8 then 0x085bc else if version == 9 then 0x09a99 else 0x0a4d3
  }

  /** (n >> i) & 1 */
  function BitAt(n: nat, i: nat): bool {
    (n / Shl(1, i)) % 2 == 1
  }

  /** The bit of the version string that module (r, c) carries, or -1: two transposed 6x3 areas. */
  function VersionIndex(size: int, r: int, c: int): int {
    if 0 <= r <= 5 && size - 11 <= c <= size - 9 then 3 * r + c - (size - 11)
    else if 0 <= c <= 5 && size - 11 <= r <= size - 9 then 3 * c + r - (size - 11)
    else -1
  }

  lemma VersionCells(size: int, i: int, row: int, col: int)
    requires size >= 21 && 0 <= i < 18 && row == i / 3 && col == size - 11 + i % 3
    ensures 0 <= row <= 5 && size - 11 <= col <= size - 9
    ensures forall r, c {:trigger VersionIndex(size, r, c)} ::
      VersionIndex(size, r, c) == i <==> ((r, c) == (row, col) || (r, c) == (col, row))
  {
  }

  method PlaceVersionInfo(m: Matrix, version: int)
    requires m.Valid()
    modifies m.modules, m.reserved
    ensures forall r, c :: m.In(r, c) ==> m.reserved[r, c] == (VersionIndex(m.size, r, c) >= 0 || old(m.reserved[r, c]))
    ensures forall r, c :: m.In(r, c) ==> (
      m.modules[r, c] == if VersionIndex(m.size, r, c) >= 0 then BitAt(VersionInfo(version), VersionIndex(m.size, r, c))
                         else old(m.modules[r, c]))
  {
    var info := VersionInfo(version);
    for i := 0 to 18
      invariant forall r, c :: m.In(r, c) ==> (
        m.reserved[r, c] == (0 <= VersionIndex(m.size, r, c) < i || old(m.reserved[r, c])))
      invariant forall r, c :: m.In(r, c) ==> (
        m.modules[r, c] == if 0 <= VersionIndex(m.size, r, c) < i then BitAt(info, VersionIndex(m.size, r, c))
                           else old(m.modules[r, c]))
    {
      var bit := BitAt(info, i);
      var row := i / 3;
      var col := m.size - 11 + i % 3;
      VersionCells(m.size, i, row, col);
      m.Set(row, col, bit);
      m.Set(col, row, bit);
    }
  }

  // ---- all function patterns ----

  /** What the function patterns show; the format area stays light until the mask is known. */
  function PatternDark(version: int, row: int, col: int): bool {
    var s := Size(version);
    if InFinder(version, row, col) then
      FinderDark(if row <= 7 then row else row - (s - 7), if col <= 7 then col else col - (s - 7))
    else if InAlignment(version, row, col) then AlignmentValue(version, row, col)
    else if row == 6 || col == 6 then (row + col) % 2 == 0
    else if InVersionInfo(version, row, col) then
      VersionIndex(s, row, col) >= 0 && BitAt(VersionInfo(version), VersionIndex(s, row, col))
    else row == s - 8 && col == 8
  }

  /** Finders, timing and alignment: everything but the dark module, format and version. */
  predicate InFixed(version: int, row: int, col: int) {
    InFinder(version, row, col) || row == 6 || col == 6 || InAlignment(version, row, col)
  }

  method PlaceFixedPatterns(m: Matrix, version: int)
    requires m.Valid() && IsVersion(version) && m.size == Size(version)
    requires forall r, c :: m.In(r, c) ==> !m.reserved[r, c] && !m.modules[r, c]
    modifies m.modules, m.reserved
    ensures forall r, c :: m.In(r, c) ==> m.reserved[r, c] == InFixed(version, r, c)
    ensures forall r, c :: m.In(r, c) ==> m.modules[r, c] == (InFixed(version, r, c) && PatternDark(version, r, c))
  {
    Finder(m, 0, 0);
    Finder(m, 0, m.size - 7);
    Finder(m, m.size - 7, 0);
    Timing(m);
    assert forall r, c :: m.In(r, c) ==> m.reserved[r, c] == (InFinder(version, r, c) || r == 6 || c == 6);
    AlignmentPatterns(m, version);
  }

  method PlaceFunctionPatterns(m: Matrix, version: int)
    requires m.Valid() && IsVersion(version) && m.size == Size(version)
    requires forall r, c :: m.In(r, c) ==> !m.reserved[r, c] && !m.modules[r, c]
    modifies m.modules, m.reserved
    ensures forall r, c :: m.In(r, c) ==> m.reserved[r, c] == IsFunction(version, r, c)
    ensures forall r, c :: m.In(r, c) ==> m.modules[r, c] == (IsFunction(version, r, c) && PatternDark(version, r, c))
  {
    PlaceFixedPatterns(m, version);
    m.Set(m.size - 8, 8, true);
    ReserveFormat(m);
    if version >= 7 {
      PlaceVersionInfo(m, version);
    }
  }
}
