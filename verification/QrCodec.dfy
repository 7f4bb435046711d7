/** The encoder, its reference decoder, and the round trip. */
module QrCodec {
  import opened Bits
  import opened QrCapacity
  import opened QrEncoding
  import opened QrInterleaving
  import opened QrLayout
  import opened QrPlacement
  import opened QrSymbol
  import opened QrZigzag
  import opened ReedSolomon
  import opened Results

  // ---- the reference decoder ----

  predicate Square(rows: Grid, n: int) {
    |rows| == n && forall r :: 0 <= r < n ==> |rows[r]| == n
  }

  /** The fifteen format bits beside the top-left finder, most significant first. */
  function FormatBits(rows: Grid): seq<bool>
    requires |rows| >= 21 && Square(rows, |rows|)
  {
    seq(15, j requires 0 <= j < 15 => rows[FormatCell(14 - j).0][FormatCell(14 - j).1])
  }

  /** The mask whose format string is n. */
  function MaskOf(n: nat): Option<int> {
    if n == FormatM(0) then Some(0)
    else if n == FormatM(1) then Some(1)
    else if n == FormatM(2) then Some(2)
    else if n == FormatM(3) then Some(3)
    else if n == FormatM(4) then Some(4)
    else if n == FormatM(5) then Some(5)
    else if n == FormatM(6) then Some(6)
    else if n == FormatM(7) then Some(7)
    else None
  }

  /** The bit that a data module carries under the mask. */
  function Unmasked(rows: Grid, mask: int, cell: Cell): bool {
    0 <= cell.0 < |rows| && 0 <= cell.1 < |rows[cell.0]| && rows[cell.0][cell.1] != Mask(mask, cell.0, cell.1)
  }

  /** The unmasked bits of the given modules. */
  function ReadBits(rows: Grid, mask: int, cells: seq<Cell>): (bits: seq<bool>)
    ensures |bits| == |cells|
    ensures forall k :: 0 <= k < |cells| ==> bits[k] == Unmasked(rows, mask, cells[k])
  {
    seq(|cells|, k requires 0 <= k < |cells| => Unmasked(rows, mask, cells[k]))
  }

  /** Reads version, mask, modules, codewords, blocks and the byte segment. */
  function Decode(rows: Grid): Option<seq<Byte>> {
    var version := (|rows| - 17) / 4;
    if !IsVersion(version) || !Square(rows, Size(version)) then None
    else
      match MaskOf(Number(FormatBits(rows)))
      case None => None
      case Some(mask) => DecodeSymbol(rows, version, mask, EccM(version), DataCells(version))
  }

  function DecodeSymbol(rows: Grid, version: int, mask: int, spec: BlockSpec, cells: seq<Cell>): Option<seq<Byte>> {
    if !WellFormed(spec) || 8 * SymbolLength(spec) > |cells| then None
    else
      var symbol := Pack(ReadBits(rows, mask, cells[..8 * SymbolLength(spec)]));
      ReadSegment(Deinterleave(symbol, spec), version)
  }

  // ---- what a finished symbol shows ----

  /** The colour of a function module once the mask is chosen. */
  function FunctionModule(version: int, mask: int, r: int, c: int): bool {
    var i := FormatIndex(Size(version), r, c);
    if i >= 0 then BitAt(FormatM(mask), i) else PatternDark(version, r, c)
  }

  ghost predicate ShowsFunctionModules(rows: Grid, version: int, mask: int)
    requires IsVersion(version) && Square(rows, Size(version))
  {
    forall r, c :: InGrid(version, r, c) && IsFunction(version, r, c) ==>
      rows[r][c] == FunctionModule(version, mask, r, c)
  }

  /** Module k of the path carries bit k of the codewords, then zeros, all masked. */
  ghost predicate ShowsData(rows: Grid, mask: int, symbol: seq<Byte>, cells: seq<Cell>) {
    && 8 * |symbol| <= |cells|
    && forall k :: 0 <= k < |cells| ==> Unmasked(rows, mask, cells[k]) == DataBit(symbol, k)
  }

  /** A complete symbol: patterns, both format copies, and the masked bits of the codewords. */
  ghost predicate IsSymbol(rows: Grid, version: int, mask: int, symbol: seq<Byte>) {
    && IsVersion(version) && 0 <= mask < 8 && Square(rows, Size(version))
    && ShowsFunctionModules(rows, version, mask) && ShowsData(rows, mask, symbol, DataCells(version))
  }

  // ---- decoding inverts encoding ----

  lemma FormatRoundTrip(rows: Grid, version: int, mask: int)
    requires IsVersion(version) && 0 <= mask < 8 && Square(rows, Size(version))
    requires ShowsFunctionModules(rows, version, mask)
    ensures MaskOf(Number(FormatBits(rows))) == Some(mask)
  {
    var (f, n) := (FormatM(mask), 15);
    forall j | 0 <= j < n
      ensures FormatBits(rows)[j] == BitString(f, n)[j]
    {
      FormatBitRead(rows, version, mask, 14 - j);
      BitStringAt(f, n, j);
    }
    assert FormatBits(rows) == BitString(f, n);
    FormatBelow(mask, n);
    NumberBitString(f, n);
    FormatDistinct(mask);
  }

  lemma FormatBitRead(rows: Grid, version: int, mask: int, i: int)
    requires IsVersion(version) && 0 <= mask < 8 && Square(rows, Size(version)) && 0 <= i < 15
    requires ShowsFunctionModules(rows, version, mask)
    ensures InGrid(version, FormatCell(i).0, FormatCell(i).1)
    ensures rows[FormatCell(i).0][FormatCell(i).1] == BitAt(FormatM(mask), i)
  {
    var cell := FormatCell(i);
    assert FormatIndex(Size(version), cell.0, cell.1) == i;
    assert IsFunction(version, cell.0, cell.1);
  }

  lemma FormatBelow(mask: int, n: nat)
    requires 0 <= mask < 8 && n == 15
    ensures FormatM(mask) < Shl(1, n)
  {
    assert Shl(1, 8) == 256 && Shl(1, 15) == 32768;
  }

  lemma FormatDistinct(mask: int)
    requires 0 <= mask < 8
    ensures MaskOf(FormatM(mask)) == Some(mask)
  {
  }

  /** Unmasking and packing gives the codewords that were placed. */
  lemma SymbolReadBack(rows: Grid, mask: int, symbol: seq<Byte>, cells: seq<Cell>, n: nat)
    requires ShowsData(rows, mask, symbol, cells) && n == 8 * |symbol| && n % 8 == 0
    ensures Pack(ReadBits(rows, mask, cells[..n])) == symbol
  {
    assert ReadBits(rows, mask, cells[..n]) == Stream(symbol);
    PackStream(symbol);
  }

  lemma DecodeSymbolInverts(rows: Grid, version: int, mask: int, spec: BlockSpec, cells: seq<Cell>,
                            symbol: seq<Byte>, codewords: seq<Byte>, bytes: seq<Byte>)
    requires ShowsData(rows, mask, symbol, cells) && ReadsAs(symbol, spec, codewords)
    requires IsVersion(version) && Fits(|bytes|, version) && IsEncoding(codewords, bytes, version)
    ensures DecodeSymbol(rows, version, mask, spec, cells) == Some(bytes)
  {
    SymbolReadBack(rows, mask, symbol, cells, 8 * SymbolLength(spec));
    ReadSegmentOfEncoding(codewords, bytes, version);
  }

  /** Every complete symbol decodes to the bytes that its codewords encode. */
  lemma DecodeInvertsSymbol(rows: Grid, version: int, mask: int, symbol: seq<Byte>, codewords: seq<Byte>,
                            bytes: seq<Byte>)
    requires IsSymbol(rows, version, mask, symbol)
    requires ReadsAs(symbol, EccM(version), codewords)
    requires Fits(|bytes|, version) && IsEncoding(codewords, bytes, version)
    ensures Decode(rows) == Some(bytes)
  {
    FormatRoundTrip(rows, version, mask);
    DecodeSymbolInverts(rows, version, mask, EccM(version), DataCells(version), symbol, codewords, bytes);
    DecodeSteps(rows, version, mask);
  }

  lemma DecodeSteps(rows: Grid, version: int, mask: int)
    requires IsVersion(version) && Square(rows, Size(version))
    requires MaskOf(Number(FormatBits(rows))) == Some(mask)
    ensures Decode(rows) == DecodeSymbol(rows, version, mask, EccM(version), DataCells(version))
  {
    assert (|rows| - 17) / 4 == version;
  }

  // ---- the encoder ----

  /** A matrix with its function patterns and all its data bits. */
  ghost predicate IsBase(m: Matrix, version: int, symbol: seq<Byte>)
    reads m.modules, m.reserved
  {
    Reserves(m, version) && ShowsPatterns(m, version) && Placed(m, DataCells(version), symbol)
  }

  method BuildBase(version: int, symbol: seq<Byte>) returns (base: Matrix)
    requires IsVersion(version)
    ensures fresh(base) && fresh(base.modules) && fresh(base.reserved)
    ensures IsBase(base, version, symbol)
  {
    base := new Matrix(Size(version));
    PlaceFunctionPatterns(base, version);
    PlaceData(base, version, symbol);
  }

  /** One masked candidate. */
  method Candidate(base: Matrix, version: int, mask: int, symbol: seq<Byte>) returns (rows: Grid)
    requires IsBase(base, version, symbol) && 0 <= mask < 8 && 8 * |symbol| <= |DataCells(version)|
    ensures IsSymbol(rows, version, mask, symbol)
  {
    var candidate := ApplyMask(base, mask);
    WriteFormat(candidate, mask);
    FormatIsFunction(version);
    rows := ToRows(candidate);
    assert ShowsData(rows, mask, symbol, DataCells(version)) by {
      forall k | 0 <= k < |DataCells(version)|
        ensures Unmasked(rows, mask, DataCells(version)[k]) == DataBit(symbol, k)
      {
        DataModule(version, k, DataCells(version)[k]);
      }
    }
  }

  lemma DataModule(version: int, k: nat, cell: Cell)
    requires IsVersion(version) && k < |DataCells(version)| && cell == DataCells(version)[k]
    ensures InGrid(version, cell.0, cell.1) && !IsFunction(version, cell.0, cell.1)
  {
    assert (cell.0, cell.1) in DataCells(version);
    ZigzagMember(version, cell.0, cell.1);
  }

  lemma FormatIsFunction(version: int)
    requires IsVersion(version)
    ensures forall r, c {:trigger FormatIndex(Size(version), r, c)} ::
      InGrid(version, r, c) && FormatIndex(Size(version), r, c) >= 0 ==> IsFunction(version, r, c)
  {
  }

  /** rows is the first candidate of least penalty. */
  ghost predicate IsBest(rows: Grid, candidates: seq<Grid>, penalty: Grid -> int) {
    exists best :: 0 <= best < |candidates| && rows == candidates[best]
      && (forall k :: 0 <= k < |candidates| ==> penalty(rows) <= penalty(candidates[k]))
      && (forall k :: 0 <= k < best ==> penalty(rows) < penalty(candidates[k]))
  }

  method ChooseMask(base: Matrix, version: int, symbol: seq<Byte>, penalty: Grid -> int)
      returns (rows: Grid, ghost candidates: seq<Grid>)
    requires IsBase(base, version, symbol) && 8 * |symbol| <= |DataCells(version)|
    ensures |candidates| == 8 && IsBest(rows, candidates, penalty)
    ensures forall k :: 0 <= k < 8 ==> IsSymbol(candidates[k], version, k, symbol)
    ensures exists mask :: 0 <= mask < 8 && IsSymbol(rows, version, mask, symbol)
  {
    var best: Option<Grid> := None;
    var bestScore := 0;
    candidates := [];
    for mask := 0 to 8
      invariant |candidates| == mask && (best.None? <==> mask == 0)
      invariant forall k :: 0 <= k < mask ==> IsSymbol(candidates[k], version, k, symbol)
      invariant best.Some? ==> bestScore == penalty(best.value) && IsBest(best.value, candidates, penalty)
    {
      var candidate := Candidate(base, version, mask, symbol);
      var score := penalty(candidate);
      ghost var before := candidates;
      candidates := candidates + [candidate];
      if best.None? || score < bestScore {
        bestScore := score;
        best := Some(candidate);
        assert candidate == candidates[mask];
      } else {
        BestExtends(best.value, before, candidate, penalty);
      }
    }
    rows := best.value;
    BestIsSymbol(rows, candidates, penalty, version, symbol);
  }

  lemma BestIsSymbol(rows: Grid, candidates: seq<Grid>, penalty: Grid -> int, version: int, symbol: seq<Byte>)
    requires IsBest(rows, candidates, penalty)
    requires forall k :: 0 <= k < |candidates| ==> IsSymbol(candidates[k], version, k, symbol)
    ensures exists mask :: 0 <= mask < |candidates| && IsSymbol(rows, version, mask, symbol)
  {
    var best :| 0 <= best < |candidates| && rows == candidates[best];
    assert IsSymbol(rows, version, best, symbol);
  }

  lemma BestExtends(rows: Grid, candidates: seq<Grid>, candidate: Grid, penalty: Grid -> int)
    requires IsBest(rows, candidates, penalty) && penalty(rows) <= penalty(candidate)
    ensures IsBest(rows, candidates + [candidate], penalty)
  {
    var best :| 0 <= best < |candidates| && rows == candidates[best]
      && (forall k :: 0 <= k < |candidates| ==> penalty(rows) <= penalty(candidates[k]))
      && (forall k :: 0 <= k < best ==> penalty(rows) < penalty(candidates[k]));
    assert rows == (candidates + [candidate])[best];
  }

  /** The smallest version that holds length bytes. */
  ghost predicate IsSmallestFit(version: int, length: nat) {
    IsVersion(version) && Fits(length, version) && forall v :: 1 <= v < version ==> !Fits(length, v)
  }

  /**
   * The QR matrix of a byte string. Content above 213 bytes is refused; otherwise the symbol has the smallest
   * version in which the content fits, shows the first mask of least penalty, and decodes to the content,
   * as would the symbol under each of the other masks. Every block of the symbol is a Reed-Solomon codeword.
   */
  method QrMatrix(bytes: seq<Byte>, penalty: Grid -> int)
      returns (result: Option<Grid>, ghost candidates: seq<Grid>, ghost version: int, ghost symbol: seq<Byte>)
    ensures result.None? <==> |bytes| > 213
    ensures result.Some? ==> Decode(result.value) == Some(bytes)
    ensures result.Some? ==> IsSmallestFit(version, |bytes|) && Square(result.value, Size(version))
    ensures result.Some? ==> |candidates| == 8 && IsBest(result.value, candidates, penalty)
    ensures result.Some? ==> forall k :: 0 <= k < 8 ==>
      IsSymbol(candidates[k], version, k, symbol) && Decode(candidates[k]) == Some(bytes)
    ensures result.Some? ==> exists codewords ::
      IsEncoding(codewords, bytes, version) && ReadsAs(symbol, EccM(version), codewords)
  {
    candidates, version, symbol := [], 1, [];
    var picked := PickVersion(|bytes|);
    if picked.None? {
      return None, candidates, version, symbol;
    }
    var v := picked.value;
    var tables := BuildTables();
    var codewords := EncodeData(bytes, v);
    var message := Interleave(tables, codewords, v);
    SymbolFits(v);
    var base := BuildBase(v, message);
    var rows;
    rows, candidates := ChooseMask(base, v, message, penalty);
    forall k | 0 <= k < 8
      ensures Decode(candidates[k]) == Some(bytes)
    {
      DecodeInvertsSymbol(candidates[k], v, k, message, codewords, bytes);
    }
    result, version, symbol := Some(rows), v, message;
  }
}
