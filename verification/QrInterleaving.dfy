/** Splitting into blocks, error correction and interleaving: sections 7.5.2 and 7.6 of ISO/IEC 18004:2015. */
module QrInterleaving {
  import opened Arithmetic
  import opened Bits
  import opened QrEncoding
  import opened ReedSolomon

  // ---- the reference reader ----

  /** The long blocks, if any, carry one data codeword more than the short ones. */
  predicate WellFormed(spec: BlockSpec) {
    && spec.g1 >= 1 && spec.g1Data >= 1 && 1 <= spec.ecPerBlock <= 255
    && (spec.g2 == 0 || spec.g2Data == spec.g1Data + 1)
    && (spec.g2 == 0 ==> spec.g2Data == 0)
  }

  function BlockCount(spec: BlockSpec): nat {
    spec.g1 + spec.g2
  }

  function BlockLength(spec: BlockSpec, b: nat): nat {
    if b < spec.g1 then spec.g1Data else spec.g2Data
  }

  /** The number of codewords in i full rows of the given width. */
  function RowStart(i: nat, width: nat): nat {
    if i == 0 then 0 else RowStart(i - 1, width) + width
  }

  /** Where codeword i of block b stands in the interleaved sequence. */
  function DataPosition(spec: BlockSpec, b: nat, i: nat): int {
    if i < spec.g1Data then RowStart(i, BlockCount(spec)) + b else RowStart(spec.g1Data, BlockCount(spec)) + b - spec.g1
  }

  function DataLength(spec: BlockSpec): nat {
    RowStart(spec.g1Data, BlockCount(spec)) + spec.g2
  }

  /** Where correction codeword i of block b stands. */
  function CorrectionPosition(spec: BlockSpec, b: nat, i: nat): nat {
    DataLength(spec) + RowStart(i, BlockCount(spec)) + b
  }

  function SymbolLength(spec: BlockSpec): nat {
    DataLength(spec) + RowStart(spec.ecPerBlock, BlockCount(spec))
  }

  lemma {:induction false} RowStartProduct(i: nat, width: nat)
    ensures RowStart(i, width) == i * width
  {
    if i > 0 {
      RowStartProduct(i - 1, width);
      MulSucc(i - 1, width);
    }
  }

  /** Row i ends before row m begins. */
  lemma {:induction false} RowBound(i: nat, m: nat, width: nat)
    requires i < m
    ensures RowStart(i, width) + width <= RowStart(m, width)
  {
    if i < m - 1 {
      RowBound(i, m - 1, width);
    }
  }

  lemma PositionBounds(spec: BlockSpec, b: nat)
    requires WellFormed(spec) && b < BlockCount(spec)
    ensures forall i :: 0 <= i < BlockLength(spec, b) ==> 0 <= DataPosition(spec, b, i) < DataLength(spec)
    ensures forall i :: 0 <= i < spec.ecPerBlock ==> CorrectionPosition(spec, b, i) < SymbolLength(spec)
  {
    forall i | 0 <= i < BlockLength(spec, b)
      ensures 0 <= DataPosition(spec, b, i) < DataLength(spec)
    {
      if i < spec.g1Data {
        RowBound(i, spec.g1Data, BlockCount(spec));
      }
    }
    forall i | 0 <= i < spec.ecPerBlock
      ensures CorrectionPosition(spec, b, i) < SymbolLength(spec)
    {
      RowBound(i, spec.ecPerBlock, BlockCount(spec));
    }
  }

  function ReadBlock(symbol: seq<Byte>, spec: BlockSpec, b: nat): (block: seq<Byte>)
    requires WellFormed(spec) && |symbol| == SymbolLength(spec) && b < BlockCount(spec)
    ensures |block| == BlockLength(spec, b)
  {
    PositionBounds(spec, b);
    seq(BlockLength(spec, b), i requires 0 <= i < BlockLength(spec, b) => symbol[DataPosition(spec, b, i)])
  }

  function ReadCorrection(symbol: seq<Byte>, spec: BlockSpec, b: nat): (block: seq<Byte>)
    requires WellFormed(spec) && |symbol| == SymbolLength(spec) && b < BlockCount(spec)
    ensures |block| == spec.ecPerBlock
  {
    PositionBounds(spec, b);
    seq(spec.ecPerBlock, i requires 0 <= i < spec.ecPerBlock => symbol[CorrectionPosition(spec, b, i)])
  }

  /** The data codewords of the first n blocks, block after block. */
  function ReadData(symbol: seq<Byte>, spec: BlockSpec, n: nat): seq<Byte>
    requires WellFormed(spec) && |symbol| == SymbolLength(spec) && n <= BlockCount(spec)
  {
    if n == 0 then [] else ReadData(symbol, spec, n - 1) + ReadBlock(symbol, spec, n - 1)
  }

  function Deinterleave(symbol: seq<Byte>, spec: BlockSpec): seq<Byte>
    requires WellFormed(spec) && |symbol| == SymbolLength(spec)
  {
    ReadData(symbol, spec, BlockCount(spec))
  }

  // ---- the encoder's loops ----

  function Concat(blocks: seq<seq<Byte>>): seq<Byte> {
    if blocks == [] then [] else Concat(blocks[..|blocks| - 1]) + blocks[|blocks| - 1]
  }

  /** One row: the i-th codeword of every block that has one. */
  function Row(blocks: seq<seq<Byte>>, i: nat): seq<Byte> {
    if blocks == [] then []
    else
      var last := blocks[|blocks| - 1];
      Row(blocks[..|blocks| - 1], i) + (if i < |last| then [last[i]] else [])
  }

  function Rows(blocks: seq<seq<Byte>>, m: nat): seq<Byte> {
    if m == 0 then [] else Rows(blocks, m - 1) + Row(blocks, m - 1)
  }

  method CollectRows(blocks: seq<seq<Byte>>, m: nat) returns (result: seq<Byte>)
    ensures result == Rows(blocks, m)
  {
    result := [];
    for i := 0 to m
      invariant result == Rows(blocks, i)
    {
      for k := 0 to |blocks|
        invariant result == Rows(blocks, i) + Row(blocks[..k], i)
      {
        assert blocks[..k + 1][..k] == blocks[..k];
        if i < |blocks[k]| {
          result := result + [blocks[k][i]];
        }
      }
      assert blocks[..|blocks|] == blocks;
    }
  }

  /** Blocks of the shape that spec prescribes. */
  ghost predicate Shaped(blocks: seq<seq<Byte>>, spec: BlockSpec) {
    && |blocks| == BlockCount(spec)
    && forall b :: 0 <= b < |blocks| ==> |blocks[b]| == BlockLength(spec, b)
  }

  lemma {:induction false} FullRow(blocks: seq<seq<Byte>>, i: nat)
    requires forall b :: 0 <= b < |blocks| ==> i < |blocks[b]|
    ensures |Row(blocks, i)| == |blocks|
    ensures forall b :: 0 <= b < |blocks| ==> Row(blocks, i)[b] == blocks[b][i]
  {
    if blocks != [] {
      FullRow(blocks[..|blocks| - 1], i);
    }
  }

  /** The row past the short blocks holds the long ones only. */
  lemma {:induction false} LongRow(blocks: seq<seq<Byte>>, i: nat, short: nat)
    requires short <= |blocks|
    requires forall b :: 0 <= b < short ==> |blocks[b]| <= i
    requires forall b :: short <= b < |blocks| ==> i < |blocks[b]|
    ensures |Row(blocks, i)| == |blocks| - short
    ensures forall b :: short <= b < |blocks| ==> Row(blocks, i)[b - short] == blocks[b][i]
  {
    if blocks != [] {
      LongRow(blocks[..|blocks| - 1], i, if short == |blocks| then short - 1 else short);
    }
  }

  ghost predicate AtLeast(blocks: seq<seq<Byte>>, m: nat) {
    forall b :: 0 <= b < |blocks| ==> m <= |blocks[b]|
  }

  lemma {:induction false} FullRowLength(blocks: seq<seq<Byte>>, i: nat)
    requires forall b :: 0 <= b < |blocks| ==> i < |blocks[b]|
    ensures |Row(blocks, i)| == |blocks|
  {
    if blocks != [] {
      FullRowLength(blocks[..|blocks| - 1], i);
    }
  }

  lemma {:induction false} RowsLength(blocks: seq<seq<Byte>>, m: nat)
    requires AtLeast(blocks, m)
    ensures |Rows(blocks, m)| == RowStart(m, |blocks|)
  {
    if m > 0 {
      RowsLength(blocks, m - 1);
      FullRowLength(blocks, m - 1);
      AppendedLength(Rows(blocks, m), Rows(blocks, m - 1), Row(blocks, m - 1));
    }
  }

  lemma AppendedLength(whole: seq<Byte>, a: seq<Byte>, b: seq<Byte>)
    requires whole == a + b
    ensures |whole| == |a| + |b|
  {
  }

  /** What stands after a prefix. */
  lemma AfterPrefix(whole: seq<Byte>, prefix: seq<Byte>, row: seq<Byte>, j: nat, p: nat)
    requires whole == prefix + row && j < |row| && p == |prefix| + j
    ensures p < |whole| && whole[p] == row[j]
  {
  }

  lemma {:induction false} RowsAt(blocks: seq<seq<Byte>>, m: nat, i: nat, b: nat)
    requires AtLeast(blocks, m) && b < |blocks| && i < m
    ensures RowStart(i, |blocks|) + b < |Rows(blocks, m)|
    ensures Rows(blocks, m)[RowStart(i, |blocks|) + b] == blocks[b][i]
  {
    var prefix, row := Rows(blocks, m - 1), Row(blocks, m - 1);
    if i < m - 1 {
      RowsAt(blocks, m - 1, i, b);
      assert Rows(blocks, m)[..|prefix|] == prefix;
    } else {
      RowsLength(blocks, i);
      FullRow(blocks, i);
      AfterPrefix(Rows(blocks, m), prefix, row, b, RowStart(i, |blocks|) + b);
    }
  }

  lemma {:induction false} RowsExtend(blocks: seq<seq<Byte>>, m: nat, k: nat)
    requires m <= k
    ensures |Rows(blocks, m)| <= |Rows(blocks, k)| && Rows(blocks, k)[..|Rows(blocks, m)|] == Rows(blocks, m)
  {
    if m < k {
      RowsExtend(blocks, m, k - 1);
    }
  }

  lemma DataRowsLength(blocks: seq<seq<Byte>>, spec: BlockSpec, rows: nat)
    requires WellFormed(spec) && Shaped(blocks, spec)
    requires rows == if spec.g2 == 0 then spec.g1Data else spec.g2Data
    ensures |Rows(blocks, rows)| == DataLength(spec)
  {
    var m := spec.g1Data;
    RowsLength(blocks, m);
    if spec.g2 > 0 {
      LongRow(blocks, m, spec.g1);
      AppendedLength(Rows(blocks, m + 1), Rows(blocks, m), Row(blocks, m));
    }
  }

  lemma ShortRowsAt(blocks: seq<seq<Byte>>, n: nat, rows: nat, b: nat, i: nat)
    requires AtLeast(blocks, n) && n <= rows && b < |blocks| && i < n
    ensures RowStart(i, |blocks|) + b < |Rows(blocks, rows)|
    ensures Rows(blocks, rows)[RowStart(i, |blocks|) + b] == blocks[b][i]
  {
    RowsAt(blocks, n, i, b);
    RowsExtend(blocks, n, rows);
    var p := RowStart(i, |blocks|) + b;
    assert Rows(blocks, rows)[..|Rows(blocks, n)|][p] == blocks[b][i];
  }

  lemma LongRowsAt(blocks: seq<seq<Byte>>, n: nat, short: nat, b: nat, p: int)
    requires AtLeast(blocks, n) && short <= b < |blocks| && p == RowStart(n, |blocks|) + b - short
    requires forall k :: 0 <= k < short ==> |blocks[k]| <= n
    requires forall k :: short <= k < |blocks| ==> n < |blocks[k]|
    ensures 0 <= p < |Rows(blocks, n + 1)| && Rows(blocks, n + 1)[p] == blocks[b][n]
  {
    RowsLength(blocks, n);
    LongRow(blocks, n, short);
    AfterPrefix(Rows(blocks, n + 1), Rows(blocks, n), Row(blocks, n), b - short, p);
  }

  /** Every data codeword stands where the reader looks for it. */
  lemma DataRowsAt(blocks: seq<seq<Byte>>, spec: BlockSpec, rows: nat, b: nat, i: nat)
    requires WellFormed(spec) && Shaped(blocks, spec)
    requires rows == if spec.g2 == 0 then spec.g1Data else spec.g2Data
    requires b < |blocks| && i < BlockLength(spec, b)
    ensures 0 <= DataPosition(spec, b, i) < |Rows(blocks, rows)|
    ensures Rows(blocks, rows)[DataPosition(spec, b, i)] == blocks[b][i]
  {
    if i < spec.g1Data {
      ShortRowsAt(blocks, spec.g1Data, rows, b, i);
    } else {
      LastRowAt(blocks, spec, b, i);
    }
  }

  /** The codeword that a long block has more. */
  lemma LastRowAt(blocks: seq<seq<Byte>>, spec: BlockSpec, b: nat, i: nat)
    requires WellFormed(spec) && Shaped(blocks, spec)
    requires b < |blocks| && spec.g1Data <= i < BlockLength(spec, b)
    ensures 0 <= DataPosition(spec, b, i) < |Rows(blocks, spec.g2Data)|
    ensures Rows(blocks, spec.g2Data)[DataPosition(spec, b, i)] == blocks[b][i]
  {
    LongRowsAt(blocks, spec.g1Data, spec.g1, b, DataPosition(spec, b, i));
  }

  /** The encoder's output: data rows, then correction rows. */
  ghost predicate IsInterleaving(symbol: seq<Byte>, spec: BlockSpec, blocks: seq<seq<Byte>>, ecBlocks: seq<seq<Byte>>) {
    && Shaped(blocks, spec) && |ecBlocks| == |blocks|
    && (forall b :: 0 <= b < |blocks| ==> IsCorrection(blocks[b], ecBlocks[b], spec.ecPerBlock))
    && symbol == Rows(blocks, if spec.g2 == 0 then spec.g1Data else spec.g2Data) + Rows(ecBlocks, spec.ecPerBlock)
  }

  lemma InterleavingLength(symbol: seq<Byte>, spec: BlockSpec, blocks: seq<seq<Byte>>, ecBlocks: seq<seq<Byte>>)
    requires WellFormed(spec) && IsInterleaving(symbol, spec, blocks, ecBlocks)
    ensures |symbol| == SymbolLength(spec)
  {
    DataRowsLength(blocks, spec, if spec.g2 == 0 then spec.g1Data else spec.g2Data);
    RowsLength(ecBlocks, spec.ecPerBlock);
  }

  lemma ReadBackData(symbol: seq<Byte>, spec: BlockSpec, blocks: seq<seq<Byte>>, ecBlocks: seq<seq<Byte>>, b: nat,
                     i: nat)
    requires WellFormed(spec) && IsInterleaving(symbol, spec, blocks, ecBlocks) && b < BlockCount(spec)
    requires i < BlockLength(spec, b)
    ensures |symbol| == SymbolLength(spec) && ReadBlock(symbol, spec, b)[i] == blocks[b][i]
  {
    InterleavingLength(symbol, spec, blocks, ecBlocks);
    DataRowsAt(blocks, spec, if spec.g2 == 0 then spec.g1Data else spec.g2Data, b, i);
  }

  lemma ReadBackCorrection(symbol: seq<Byte>, spec: BlockSpec, blocks: seq<seq<Byte>>, ecBlocks: seq<seq<Byte>>,
                           b: nat, i: nat)
    requires WellFormed(spec) && IsInterleaving(symbol, spec, blocks, ecBlocks) && b < BlockCount(spec)
    requires i < spec.ecPerBlock
    ensures |symbol| == SymbolLength(spec) && i < |ecBlocks[b]| && ReadCorrection(symbol, spec, b)[i] == ecBlocks[b][i]
  {
    var rows := if spec.g2 == 0 then spec.g1Data else spec.g2Data;
    InterleavingLength(symbol, spec, blocks, ecBlocks);
    DataRowsLength(blocks, spec, rows);
    assert IsCorrection(blocks[b], ecBlocks[b], spec.ecPerBlock);
    RowsAt(ecBlocks, spec.ecPerBlock, i, b);
    AfterPrefix(symbol, Rows(blocks, rows), Rows(ecBlocks, spec.ecPerBlock), RowStart(i, |blocks|) + b,
      CorrectionPosition(spec, b, i));
  }

  /** The reader finds each block and its correction again. */
  lemma ReadBack(symbol: seq<Byte>, spec: BlockSpec, blocks: seq<seq<Byte>>, ecBlocks: seq<seq<Byte>>, b: nat)
    requires WellFormed(spec) && IsInterleaving(symbol, spec, blocks, ecBlocks) && b < BlockCount(spec)
    ensures |symbol| == SymbolLength(spec)
    ensures ReadBlock(symbol, spec, b) == blocks[b] && ReadCorrection(symbol, spec, b) == ecBlocks[b]
  {
    InterleavingLength(symbol, spec, blocks, ecBlocks);
    assert IsCorrection(blocks[b], ecBlocks[b], spec.ecPerBlock);
    forall i | 0 <= i < BlockLength(spec, b)
      ensures ReadBlock(symbol, spec, b)[i] == blocks[b][i]
    {
      ReadBackData(symbol, spec, blocks, ecBlocks, b, i);
    }
    forall i | 0 <= i < spec.ecPerBlock
      ensures ReadCorrection(symbol, spec, b)[i] == ecBlocks[b][i]
    {
      ReadBackCorrection(symbol, spec, blocks, ecBlocks, b, i);
    }
  }

  lemma {:induction false} ReadDataPrefix(symbol: seq<Byte>, spec: BlockSpec,
                                          blocks: seq<seq<Byte>>, ecBlocks: seq<seq<Byte>>, n: nat)
    requires WellFormed(spec) && IsInterleaving(symbol, spec, blocks, ecBlocks) && n <= BlockCount(spec)
    ensures |symbol| == SymbolLength(spec)
    ensures ReadData(symbol, spec, n) == Concat(blocks[..n])
  {
    InterleavingLength(symbol, spec, blocks, ecBlocks);
    if n > 0 {
      ReadDataPrefix(symbol, spec, blocks, ecBlocks, n - 1);
      ReadBack(symbol, spec, blocks, ecBlocks, n - 1);
      assert blocks[..n][..n - 1] == blocks[..n - 1];
    }
  }

  // ---- splitting into blocks ----

  /** Takes count blocks of the given size from the codewords, with their correction. */
  method TakeBlocks(t: Tables, codewords: seq<Byte>, offset: nat, count: nat, size: nat, ec: nat)
      returns (blocks: seq<seq<Byte>>, ecBlocks: seq<seq<Byte>>)
    requires TablesOk(t) && 1 <= ec <= 255 && offset + count * size <= |codewords|
    ensures |blocks| == |ecBlocks| == count
    ensures forall b :: 0 <= b < count ==> |blocks[b]| == size && IsCorrection(blocks[b], ecBlocks[b], ec)
    ensures Concat(blocks) == codewords[offset..offset + count * size]
  {
    blocks, ecBlocks := [], [];
    var at := offset;
    var i := 0;
    while i < count
      invariant 0 <= i <= count && |blocks| == |ecBlocks| == i
      invariant at == offset + i * size
      invariant forall b :: 0 <= b < i ==> |blocks[b]| == size && IsCorrection(blocks[b], ecBlocks[b], ec)
      invariant at <= |codewords| && Concat(blocks) == codewords[offset..at]
    {
      MulSucc(i, size);
      MulMonotone(i + 1, count, size);
      var block := codewords[at..at + size];
      at := at + size;
      ghost var before := blocks;
      blocks := blocks + [block];
      assert blocks[..|blocks| - 1] == before;
      var correction := Remainder(t, block, ec);
      ecBlocks := ecBlocks + [correction];
      i := i + 1;
    }
  }

  lemma {:induction false} ConcatAppend(a: seq<seq<Byte>>, b: seq<seq<Byte>>)
    ensures Concat(a + b) == Concat(a) + Concat(b)
  {
    if b == [] {
      assert a + b == a;
    } else {
      ConcatAppend(a, b[..|b| - 1]);
      assert (a + b)[..|a + b| - 1] == a + b[..|b| - 1];
    }
  }

  lemma EccWellFormed(version: int)
    requires IsVersion(version)
    ensures WellFormed(EccM(version))
  {
  }

  lemma CorrectionOfPart(short: seq<seq<Byte>>, shortEc: seq<seq<Byte>>, long: seq<seq<Byte>>, longEc: seq<seq<Byte>>,
                         ec: nat, b: nat, block: seq<Byte>, correction: seq<Byte>)
    requires |short| == |shortEc| && |long| == |longEc| && b < |short| + |long|
    requires block == (short + long)[b] && correction == (shortEc + longEc)[b]
    requires b < |short| ==> IsCorrection(short[b], shortEc[b], ec)
    requires b >= |short| ==> IsCorrection(long[b - |short|], longEc[b - |short|], ec)
    ensures IsCorrection(block, correction, ec)
  {
  }

  lemma CorrectionsOfParts(short: seq<seq<Byte>>, shortEc: seq<seq<Byte>>, long: seq<seq<Byte>>, longEc: seq<seq<Byte>>,
                           ec: nat)
    requires |short| == |shortEc| && |long| == |longEc|
    requires forall b :: 0 <= b < |short| ==> IsCorrection(short[b], shortEc[b], ec)
    requires forall b :: 0 <= b < |long| ==> IsCorrection(long[b], longEc[b], ec)
    ensures forall b :: 0 <= b < |short + long| ==> IsCorrection((short + long)[b], (shortEc + longEc)[b], ec)
  {
    var (blocks, ecBlocks) := (short + long, shortEc + longEc);
    forall b | 0 <= b < |blocks|
      ensures IsCorrection(blocks[b], ecBlocks[b], ec)
    {
      CorrectionOfPart(short, shortEc, long, longEc, ec, b, blocks[b], ecBlocks[b]);
    }
  }

  lemma JoinParts(codewords: seq<Byte>, middle: nat, short: seq<seq<Byte>>, long: seq<seq<Byte>>)
    requires middle <= |codewords|
    requires Concat(short) == codewords[0..middle] && Concat(long) == codewords[middle..|codewords|]
    ensures Concat(short + long) == codewords
  {
    ConcatAppend(short, long);
    Halves(codewords, middle, Concat(short), Concat(long));
  }

  lemma Halves(s: seq<Byte>, middle: nat, a: seq<Byte>, b: seq<Byte>)
    requires middle <= |s| && a == s[0..middle] && b == s[middle..|s|]
    ensures a + b == s
  {
  }

  lemma ShapedOfParts(spec: BlockSpec, short: seq<seq<Byte>>, long: seq<seq<Byte>>)
    requires |short| == spec.g1 && |long| == spec.g2
    requires forall b :: 0 <= b < |short| ==> |short[b]| == spec.g1Data
    requires forall b :: 0 <= b < |long| ==> |long[b]| == spec.g2Data
    ensures Shaped(short + long, spec)
  {
  }

  method SplitBlocks(t: Tables, codewords: seq<Byte>, spec: BlockSpec)
      returns (blocks: seq<seq<Byte>>, ecBlocks: seq<seq<Byte>>)
    requires TablesOk(t) && WellFormed(spec) && |codewords| == spec.g1 * spec.g1Data + spec.g2 * spec.g2Data
    ensures Shaped(blocks, spec) && |ecBlocks| == |blocks| && Concat(blocks) == codewords
    ensures forall b :: 0 <= b < |blocks| ==> IsCorrection(blocks[b], ecBlocks[b], spec.ecPerBlock)
  {
    var middle: nat := spec.g1 * spec.g1Data;
    var rest: nat := spec.g2 * spec.g2Data;
    assert |codewords| == middle + rest;
    var short, shortEc := TakeBlocks(t, codewords, 0, spec.g1, spec.g1Data, spec.ecPerBlock);
    var long, longEc := TakeBlocks(t, codewords, middle, spec.g2, spec.g2Data, spec.ecPerBlock);
    blocks, ecBlocks := short + long, shortEc + longEc;
    JoinParts(codewords, middle, short, long);
    ShapedOfParts(spec, short, long);
    CorrectionsOfParts(short, shortEc, long, longEc, spec.ecPerBlock);
  }

  /** What a decoder relies on: the data reads back, and every block read is a codeword. */
  ghost predicate ReadsAs(symbol: seq<Byte>, spec: BlockSpec, codewords: seq<Byte>) {
    && WellFormed(spec) && |symbol| == SymbolLength(spec)
    && Deinterleave(symbol, spec) == codewords
    && forall b :: 0 <= b < BlockCount(spec) ==>
         IsCorrection(ReadBlock(symbol, spec, b), ReadCorrection(symbol, spec, b), spec.ecPerBlock)
  }

  lemma InterleavingReads(symbol: seq<Byte>, spec: BlockSpec, blocks: seq<seq<Byte>>, ecBlocks: seq<seq<Byte>>)
    requires WellFormed(spec) && IsInterleaving(symbol, spec, blocks, ecBlocks)
    ensures ReadsAs(symbol, spec, Concat(blocks))
  {
    ReadDataPrefix(symbol, spec, blocks, ecBlocks, BlockCount(spec));
    assert blocks[..|blocks|] == blocks;
    forall b | 0 <= b < BlockCount(spec)
      ensures IsCorrection(ReadBlock(symbol, spec, b), ReadCorrection(symbol, spec, b), spec.ecPerBlock)
    {
      ReadBack(symbol, spec, blocks, ecBlocks, b);
    }
  }

  method Interleave(t: Tables, codewords: seq<Byte>, version: int) returns (symbol: seq<Byte>)
    requires TablesOk(t) && IsVersion(version) && |codewords| == TotalData(version)
    ensures ReadsAs(symbol, EccM(version), codewords)
  {
    var spec := EccM(version);
    EccWellFormed(version);
    var blocks, ecBlocks := SplitBlocks(t, codewords, spec);
    var dataPart := CollectRows(blocks, if spec.g2 == 0 then spec.g1Data else spec.g2Data);
    var correctionPart := CollectRows(ecBlocks, spec.ecPerBlock);
    symbol := dataPart + correctionPart;
    InterleavingReads(symbol, spec, blocks, ecBlocks);
  }
}
