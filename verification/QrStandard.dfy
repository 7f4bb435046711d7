/** What ISO/IEC 18004:2015 prescribes for level M, apart from the tables that the encoder reads. */
module QrStandard {
  import opened Arithmetic
  import opened Bits
  import opened Distance
  import opened HexDigits
  import opened QrCapacity
  import opened QrEncoding
  import opened QrInterleaving
  import opened QrLayout
  import opened QrPlacement
  import opened QrSymbol

  // ---- capacity ----

  /** The bytes a version holds at level M, table 7. */
  function ByteCapacity(version: int): nat
    requires IsVersion(version)
  {
    match version
    case 1 => 14
    case 2 => 26
    case 3 => 42
    case 4 => 62
    case 5 => 84
    case 6 => 106
    case 7 => 122
    case 8 => 152
    case 9 => 180
    case _ => 213
  }

  lemma FitsExactly(length: nat, version: int)
    requires IsVersion(version)
    ensures Fits(length, version) <==> length <= ByteCapacity(version)
  {
  }

  // ---- blocks ----

  /** Error correction blocks of a version at level M, table 9. */
  function BlocksM(version: int): nat {
    if version <= 3 then 1 else if version <= 5 then 2 else if version <= 8 then 4 else 5
  }

  /**
   * The blocks of a version share its codewords as evenly as possible, and what the data leave of the symbol
   * is correction.
   */
  lemma BlocksShareSymbol(version: int)
    requires IsVersion(version)
    ensures var spec := EccM(version);
            && BlockCount(spec) == BlocksM(version)
            && spec.g1Data == TotalData(version) / BlocksM(version)
            && spec.g2 == TotalData(version) % BlocksM(version)
            && BlocksM(version) * spec.ecPerBlock == |DataCells(version)| / 8 - TotalData(version)
  {
    Shared(version, EccM(version), BlocksM(version));
    QuotientUnique(TotalData(version), BlocksM(version), EccM(version).g1Data, EccM(version).g2);
    SymbolFits(version);
  }

  lemma Shared(version: int, spec: BlockSpec, k: nat)
    requires IsVersion(version) && spec == EccM(version) && k == BlocksM(version)
    ensures BlockCount(spec) == k
    ensures TotalData(version) == k * spec.g1Data + spec.g2 && spec.g2 < k
    ensures k * spec.ecPerBlock == CodewordCount(version) - TotalData(version)
  {
  }

  /** Level M repairs 15 per cent of the codewords of a block, and less than the 25 of the next level. */
  lemma LevelM(version: int, b: nat)
    requires IsVersion(version) && b < BlockCount(EccM(version))
    ensures var length := BlockLength(EccM(version), b) + EccM(version).ecPerBlock;
            15 * length <= 100 * (EccM(version).ecPerBlock / 2) < 25 * length
  {
  }

  /** A symbol with at most 15 per cent of each block damaged is repairable. */
  lemma FifteenPercent(version: int, symbol: seq<Byte>, received: seq<Byte>)
    requires IsVersion(version) && WellFormed(EccM(version))
    requires |symbol| == |received| == SymbolLength(EccM(version))
    requires forall b :: 0 <= b < BlockCount(EccM(version)) ==>
      100 * |Differing(Received(symbol, EccM(version), b), Received(received, EccM(version), b))| <=
      15 * (BlockLength(EccM(version), b) + EccM(version).ecPerBlock)
    ensures Repairable(symbol, received, EccM(version))
  {
    forall b | 0 <= b < BlockCount(EccM(version))
      ensures 2 * |Differing(Received(symbol, EccM(version), b), Received(received, EccM(version), b))| <=
              EccM(version).ecPerBlock
    {
      LevelM(version, b);
    }
  }

  // ---- alignment patterns ----

  /** Two centres a line, from version 7 on three, evenly spaced from column 6 to as far from the other edge. */
  lemma AlignmentSpacing(version: int, centres: seq<int>)
    requires IsVersion(version) && centres == Alignment(version)
    ensures version == 1 ==> centres == []
    ensures version > 1 ==>
      && |centres| == (if version < 7 then 2 else 3)
      && centres[0] == 6 && centres[|centres| - 1] == 4 * version + 10
      && (version >= 7 ==> centres[1] - centres[0] == centres[2] - centres[1])
  {
  }

  /** Every pair of centres has its pattern, except those that lie in the three finders. */
  lemma NotInFinders(version: int, i: nat, j: nat, centres: seq<int>, edge: int)
    requires IsVersion(version) && centres == Alignment(version) && i < |centres| && j < |centres|
    requires edge == 4 * version + 10
    ensures NearFinder(Size(version), centres[i], centres[j]) <==>
      (centres[i], centres[j]) in {(6, 6), (6, edge), (edge, 6)}
  {
    AlignmentSpacing(version, centres);
  }

  // ---- format and version strings ----

  /** The product of two polynomials over GF(2), bit i standing for x^i. */
  function Carryless(q: nat, g: nat): nat {
    if q == 0 then 0 else Xor(2 * Carryless(q / 2, g), if q % 2 == 1 then g else 0)
  }

  lemma CarrylessStep(h: nat, g: nat, q: nat, r: nat)
    requires Carryless(h, g) == r && (q == 2 * h || q == 2 * h + 1) && q > 0
    ensures Carryless(q, g) == if q == 2 * h then 2 * r else Xor(2 * r, g)
  {
    assert q / 2 == h && q % 2 == q - 2 * h;
    XorZero(2 * r);
  }

  lemma CarrylessSmall(g: nat)
    ensures Carryless(1, g) == g && Carryless(2, g) == 2 * g && Carryless(4, g) == 4 * g
  {
    XorZero(g);
    CarrylessStep(0, g, 1, 0);
    CarrylessStep(1, g, 2, g);
    CarrylessStep(2, g, 4, 2 * g);
  }

  lemma CarrylessThree(g: nat, three: nat, five: nat, six: nat, seven: nat)
    requires three == Xor(2 * g, g) && five == Xor(4 * g, g) && six == 2 * three && seven == Xor(six, g)
    ensures Carryless(3, g) == three && Carryless(5, g) == five && Carryless(6, g) == six && Carryless(7, g) == seven
  {
    CarrylessSmall(g);
    CarrylessStep(1, g, 3, g);
    CarrylessStep(2, g, 5, 2 * g);
    CarrylessStep(3, g, 6, three);
    CarrylessStep(3, g, 7, three);
  }

  const FORMAT_GENERATOR := 0x537
  const FORMAT_MASK := 0x5412
  const VERSION_GENERATOR := 0x1f25

  lemma GeneratorThree(x: nat, y: nat)
    requires x == 0xa6e && y == FORMAT_GENERATOR
    ensures Xor(x, y) == 0xf59
  {
    XorOf([0, 0, 10, 6, 14], [0, 0, 5, 3, 7], [0, 0, 15, 5, 9], x, y, 0xf59);
  }

  lemma GeneratorFive(x: nat, y: nat)
    requires x == 0x14dc && y == FORMAT_GENERATOR
    ensures Xor(x, y) == 0x11eb
  {
    XorOf([0, 1, 4, 13, 12], [0, 0, 5, 3, 7], [0, 1, 1, 14, 11], x, y, 0x11eb);
  }

  lemma GeneratorSeven(x: nat, y: nat)
    requires x == 0x1eb2 && y == FORMAT_GENERATOR
    ensures Xor(x, y) == 0x1b85
  {
    XorOf([0, 1, 14, 11, 2], [0, 0, 5, 3, 7], [0, 1, 11, 8, 5], x, y, 0x1b85);
  }

  /** The first multiples of the generator of format strings. */
  lemma FormatMultiples(g: nat)
    requires g == FORMAT_GENERATOR
    ensures Carryless(1, g) == 0x537 && Carryless(2, g) == 0xa6e && Carryless(3, g) == 0xf59
    ensures Carryless(4, g) == 0x14dc && Carryless(5, g) == 0x11eb && Carryless(6, g) == 0x1eb2
    ensures Carryless(7, g) == 0x1b85
  {
    var six := 0x1eb2;
    GeneratorThree(2 * g, g);
    GeneratorFive(4 * g, g);
    GeneratorSeven(six, g);
    CarrylessSmall(g);
    CarrylessThree(g, 0xf59, 0x11eb, six, 0x1b85);
  }

  lemma FormatOne(x: nat, y: nat)
    requires x == 0x5125 && y == FORMAT_MASK
    ensures Xor(x, y) == 0x537
  {
    XorOf([0, 5, 1, 2, 5], [0, 5, 4, 1, 2], [0, 0, 5, 3, 7], x, y, 0x537);
  }

  lemma FormatTwo(x: nat, y: nat)
    requires x == 0x5e7c && y == FORMAT_MASK
    ensures Xor(x, y) == 0xa6e
  {
    XorOf([0, 5, 14, 7, 12], [0, 5, 4, 1, 2], [0, 0, 10, 6, 14], x, y, 0xa6e);
  }

  lemma FormatThree(x: nat, y: nat)
    requires x == 0x5b4b && y == FORMAT_MASK
    ensures Xor(x, y) == 0xf59
  {
    XorOf([0, 5, 11, 4, 11], [0, 5, 4, 1, 2], [0, 0, 15, 5, 9], x, y, 0xf59);
  }

  lemma FormatFour(x: nat, y: nat)
    requires x == 0x45f9 && y == FORMAT_MASK
    ensures Xor(x, y) == 0x11eb
  {
    XorOf([0, 4, 5, 15, 9], [0, 5, 4, 1, 2], [0, 1, 1, 14, 11], x, y, 0x11eb);
  }

  lemma FormatFive(x: nat, y: nat)
    requires x == 0x40ce && y == FORMAT_MASK
    ensures Xor(x, y) == 0x14dc
  {
    XorOf([0, 4, 0, 12, 14], [0, 5, 4, 1, 2], [0, 1, 4, 13, 12], x, y, 0x14dc);
  }

  lemma FormatSix(x: nat, y: nat)
    requires x == 0x4f97 && y == FORMAT_MASK
    ensures Xor(x, y) == 0x1b85
  {
    XorOf([0, 4, 15, 9, 7], [0, 5, 4, 1, 2], [0, 1, 11, 8, 5], x, y, 0x1b85);
  }

  lemma FormatSeven(x: nat, y: nat)
    requires x == 0x4aa0 && y == FORMAT_MASK
    ensures Xor(x, y) == 0x1eb2
  {
    XorOf([0, 4, 10, 10, 0], [0, 5, 4, 1, 2], [0, 1, 14, 11, 2], x, y, 0x1eb2);
  }

  /** The format strings without the fixed one that keeps them from being all zeros. */
  lemma Unmasked(mask: int, f: nat, x: nat)
    requires 0 <= mask < 8 && f == FormatM(mask) && x == FORMAT_MASK
    ensures mask == 0 ==> Xor(f, x) == 0x0
    ensures mask == 1 ==> Xor(f, x) == 0x537
    ensures mask == 2 ==> Xor(f, x) == 0xa6e
    ensures mask == 3 ==> Xor(f, x) == 0xf59
    ensures mask == 4 ==> Xor(f, x) == 0x11eb
    ensures mask == 5 ==> Xor(f, x) == 0x14dc
    ensures mask == 6 ==> Xor(f, x) == 0x1b85
    ensures mask == 7 ==> Xor(f, x) == 0x1eb2
  {
    match mask {
      case 0 => XorZero(f);
      case 1 => FormatOne(f, x);
      case 2 => FormatTwo(f, x);
      case 3 => FormatThree(f, x);
      case 4 => FormatFour(f, x);
      case 5 => FormatFive(f, x);
      case 6 => FormatSix(f, x);
      case _ => FormatSeven(f, x);
    }
  }

  /**
   * Unmasked, the format string has the two bits 00 of level M, the mask and ten correction bits: it is a
   * multiple of the generator.
   */
  lemma FormatIsCode(mask: int, f: nat) returns (q: nat)
    requires 0 <= mask < 8 && f == Xor(FormatM(mask), FORMAT_MASK)
    ensures f / 1024 == mask && f == Carryless(q, FORMAT_GENERATOR)
  {
    Unmasked(mask, FormatM(mask), FORMAT_MASK);
    FormatMultiples(FORMAT_GENERATOR);
    q := if mask == 4 then 5 else if mask == 5 then 4 else if mask == 6 then 7 else if mask == 7 then 6 else mask;
  }

  lemma VersionThree(x: nat, y: nat)
    requires x == 0x3e4a && y == VERSION_GENERATOR
    ensures Xor(x, y) == 0x216f
  {
    XorOf([0, 3, 14, 4, 10], [0, 1, 15, 2, 5], [0, 2, 1, 6, 15], x, y, 0x216f);
  }

  lemma VersionFive(x: nat, y: nat)
    requires x == 0x7c94 && y == VERSION_GENERATOR
    ensures Xor(x, y) == 0x63b1
  {
    XorOf([0, 7, 12, 9, 4], [0, 1, 15, 2, 5], [0, 6, 3, 11, 1], x, y, 0x63b1);
  }

  lemma VersionSeven(x: nat, y: nat)
    requires x == 0x42de && y == VERSION_GENERATOR
    ensures Xor(x, y) == 0x5dfb
  {
    XorOf([0, 4, 2, 13, 14], [0, 1, 15, 2, 5], [0, 5, 13, 15, 11], x, y, 0x5dfb);
  }

  lemma ThirteenHigh()
    ensures DigitXor(8, 1) == 9 && DigitXor(5, 15) == 10
  {
  }

  lemma ThirteenLow()
    ensures DigitXor(11, 2) == 9 && DigitXor(12, 5) == 9
  {
  }

  lemma VersionThirteen(x: nat, y: nat)
    requires x == 0x85bc && y == VERSION_GENERATOR
    ensures Xor(x, y) == 0x9a99
  {
    ThirteenHigh();
    ThirteenLow();
    XorOf([0, 8, 5, 11, 12], [0, 1, 15, 2, 5], [0, 9, 10, 9, 9], x, y, 0x9a99);
  }

  lemma VersionFifteen(x: nat, y: nat)
    requires x == 0xbbf6 && y == VERSION_GENERATOR
    ensures Xor(x, y) == 0xa4d3
  {
    XorOf([0, 11, 11, 15, 6], [0, 1, 15, 2, 5], [0, 10, 4, 13, 3], x, y, 0xa4d3);
  }

  /** The multiples of the generator of version strings that versions 7 to 10 have. */
  lemma VersionMultiples(g: nat)
    requires g == VERSION_GENERATOR
    ensures Carryless(4, g) == 0x7c94 && Carryless(12, g) == 0x85bc
    ensures Carryless(13, g) == 0x9a99 && Carryless(15, g) == 0xa4d3
  {
    var six, seven, twelve := 0x42de, 0x5dfb, 0x85bc;
    VersionThree(2 * g, g);
    VersionFive(4 * g, g);
    VersionSeven(six, g);
    VersionThirteen(twelve, g);
    VersionFifteen(2 * seven, g);
    CarrylessSmall(g);
    CarrylessThree(g, 0x216f, 0x63b1, six, seven);
    CarrylessStep(6, g, 12, six);
    CarrylessStep(6, g, 13, six);
    CarrylessStep(7, g, 15, seven);
  }

  /** The version string has the version and twelve correction bits: it is a multiple of its generator. */
  lemma VersionIsCode(version: int, v: nat) returns (q: nat)
    requires 7 <= version <= 10 && v == VersionInfo(version)
    ensures v / 4096 == version && v == Carryless(q, VERSION_GENERATOR)
  {
    VersionMultiples(VERSION_GENERATOR);
    q := if version == 7 then 4 else if version == 8 then 12 else if version == 9 then 13 else 15;
  }

  // ---- masks ----

  lemma SixResidues(p: nat, q: nat, k: nat)
    requires p == 6 * q + k && k < 6
    ensures p % 2 == k % 2 && p % 3 == k % 3 && p % 6 == k
  {
    QuotientUnique(p, 6, q, k);
    QuotientUnique(p, 2, 3 * q + k / 2, k % 2);
    QuotientUnique(p, 3, 2 * q + k / 3, k % 3);
  }

  lemma ModSix(p: nat)
    ensures p % 2 + p % 3 == 0 <==> p % 6 == 0
    ensures (p % 2 + p % 3) % 2 == 0 <==> p % 6 < 3
  {
    var k := p % 6;
    SixResidues(p, p / 6, k);
    assert k == 0 || k == 1 || k == 2 || k == 3 || k == 4 || k == 5;
  }

  lemma HalfOf(r: nat, q: nat, k: nat)
    requires r == 4 * q + k && k < 4
    ensures r / 2 % 2 == 0 <==> k < 2
    ensures r % 4 == k
  {
    QuotientUnique(r, 4, q, k);
    QuotientUnique(r, 2, 2 * q + k / 2, k % 2);
    QuotientUnique(2 * q + k / 2, 2, q, k / 2);
  }

  lemma ThirdOf(c: nat, q: nat, k: nat)
    requires c == 6 * q + k && k < 6
    ensures c / 3 % 2 == 0 <==> k < 3
    ensures c % 6 == k
  {
    QuotientUnique(c, 6, q, k);
    QuotientUnique(c, 3, 2 * q + k / 3, k % 3);
    QuotientUnique(2 * q + k / 3, 2, q, k / 3);
  }

  lemma SumParity(a: nat, b: nat)
    ensures (a + b) % 2 == 0 <==> a % 2 == b % 2
  {
  }

  lemma SumThird(a: nat, b: nat)
    ensures (a + b) % 3 == 0 <==> a % 3 + b % 3 == 0 || a % 3 + b % 3 == 3
  {
  }

  lemma TwoAndThree(n: nat)
    ensures (2 * n) % 2 == 0 && (2 * n + 1) % 2 == 1
    ensures (3 * n) % 3 == 0 && (3 * n + 1) % 3 == 1 && (3 * n + 2) % 3 == 2
  {
    QuotientUnique(2 * n, 2, n, 0);
    QuotientUnique(2 * n + 1, 2, n, 1);
    QuotientUnique(3 * n, 3, n, 0);
    QuotientUnique(3 * n + 1, 3, n, 1);
    QuotientUnique(3 * n + 2, 3, n, 2);
  }

  /** The masks of the sum: chequers, and every third diagonal. */
  lemma SumMasks(r: nat, c: nat)
    ensures Mask(0, r, c) <==> r % 2 == c % 2
    ensures Mask(3, r, c) <==> r % 3 + c % 3 == 0 || r % 3 + c % 3 == 3
  {
    SumParity(r, c);
    SumThird(r, c);
  }

  /** The masks of lines: every second row, and every third column. */
  lemma LineMasks(r: nat, c: nat)
    ensures Mask(1, 2 * r, c) && !Mask(1, 2 * r + 1, c)
    ensures Mask(2, r, 3 * c) && !Mask(2, r, 3 * c + 1) && !Mask(2, r, 3 * c + 2)
  {
    TwoAndThree(r);
    TwoAndThree(c);
  }

  /** The other four: stripes of two rows and three columns, and the product of row and column modulo six. */
  lemma OtherMasks(r: nat, c: nat, product: nat)
    requires product == r * c
    ensures Mask(4, r, c) <==> (r % 4 < 2 <==> c % 6 < 3)
    ensures Mask(5, r, c) <==> product % 6 == 0
    ensures Mask(6, r, c) <==> product % 6 < 3
    ensures Mask(7, r, c) <==> (r % 2 == c % 2 <==> product % 3 != 1)
  {
    HalfOf(r, r / 4, r % 4);
    ThirdOf(c, c / 6, c % 6);
    SumParity(r / 2, c / 3);
    ModSix(product);
    SumParity(r, c);
    SumParity((r + c) % 2, product % 3);
  }
}
