/** Version choice and the byte-mode bit stream: sections 7.4.5, 7.4.9 and 7.4.10 of ISO/IEC 18004:2015. */
module QrEncoding {
  import opened Arithmetic
  import opened Bits
  import opened Results

  // ---- error correction level M, versions 1 to 10 ----

  datatype BlockSpec = BlockSpec(ecPerBlock: nat, g1: nat, g1Data: nat, g2: nat, g2Data: nat)

  predicate IsVersion(version: int) {
    1 <= version <= 10
  }

  function EccM(version: int): BlockSpec
    requires IsVersion(version)
  {
    match version
    case 1 => BlockSpec(10, 1, 16, 0, 0)
    case 2 => BlockSpec(16, 1, 28, 0, 0)
    case 3 => BlockSpec(26, 1, 44, 0, 0)
    case 4 => BlockSpec(18, 2, 32, 0, 0)
    case 5 => BlockSpec(24, 2, 43, 0, 0)
    case 6 => BlockSpec(16, 4, 27, 0, 0)
    case 7 => BlockSpec(18, 4, 31, 0, 0)
    case 8 => BlockSpec(22, 2, 38, 2, 39)
    case 9 => BlockSpec(22, 3, 36, 2, 37)
    case _ => BlockSpec(26, 4, 43, 1, 44)
  }

  function TotalData(version: int): nat
    requires IsVersion(version)
  {
    var spec := EccM(version);
    spec.g1 * spec.g1Data + spec.g2 * spec.g2Data
  }

  function CountBits(version: int): nat {
    if version < 10 then 8 else 16
  }

  predicate Fits(length: nat, version: int)
    requires IsVersion(version)
  {
    length * 8 + MODE_BITS + CountBits(version) <= TotalData(version) * 8
  }

  /** The smallest version in which the content fits; none above 213 bytes. */
  method PickVersion(length: nat) returns (version: Option<int>)
    ensures version.None? <==> length > 213
    ensures version.Some? ==> IsVersion(version.value) && Fits(length, version.value)
    ensures version.Some? ==> forall v :: 1 <= v < version.value ==> !Fits(length, v)
  {
    var v := 1;
    while v <= 10
      invariant 1 <= v <= 11
      invariant forall w :: 1 <= w < v ==> !Fits(length, w)
    {
      if Fits(length, v) {
        LongestContent(length, v);
        return Some(v);
      }
      v := v + 1;
    }
    assert !Fits(length, 10);
    return None;
  }

  lemma LongestContent(length: nat, version: int)
    requires IsVersion(version) && Fits(length, version)
    ensures length <= 213
  {
  }

  // ---- bit strings, most significant bit first ----

  /** The length low bits of value. */
  function BitString(value: nat, length: nat): (bits: seq<bool>)
    ensures |bits| == length
  {
    if length == 0 then [] else BitString(value / 2, length - 1) + [value % 2 == 1]
  }

  function Number(bits: seq<bool>): nat {
    if bits == [] then 0 else 2 * Number(bits[..|bits| - 1]) + (if bits[|bits| - 1] then 1 else 0)
  }

  lemma {:induction false} NumberBitString(value: nat, length: nat)
    requires value < Shl(1, length)
    ensures Number(BitString(value, length)) == value
  {
    if length > 0 {
      NumberBitString(value / 2, length - 1);
      assert BitString(value, length)[..length - 1] == BitString(value / 2, length - 1);
    }
  }

  lemma {:induction false} BitStringNumber(bits: seq<bool>)
    ensures BitString(Number(bits), |bits|) == bits
    ensures Number(bits) < Shl(1, |bits|)
  {
    if bits != [] {
      BitStringNumber(bits[..|bits| - 1]);
    }
  }

  /** The bits of a codeword sequence. */
  function Stream(codewords: seq<Byte>): (bits: seq<bool>)
    ensures |bits| == 8 * |codewords|
  {
    if codewords == [] then [] else BitString(codewords[0], 8) + Stream(codewords[1..])
  }

  /** Groups bits into codewords. */
  function Pack(bits: seq<bool>): (codewords: seq<Byte>)
    requires |bits| % 8 == 0
    ensures 8 * |codewords| == |bits|
  {
    if bits == [] then []
    else
      NumberOfEight(bits[..8]);
      [Number(bits[..8])] + Pack(bits[8..])
  }

  lemma NumberOfEight(bits: seq<bool>)
    requires |bits| == 8
    ensures Number(bits) < 256
  {
    var n := 8;
    BitStringNumber(bits);
    ShlEight(n);
  }

  lemma ShlEight(n: nat)
    ensures n == 8 ==> Shl(1, n) == 256
  {
    assert Shl(1, 8) == 256;
  }

  lemma {:induction false} PackStream(codewords: seq<Byte>)
    ensures Pack(Stream(codewords)) == codewords
  {
    if codewords != [] {
      var bits := BitString(codewords[0], 8);
      PackStream(codewords[1..]);
      ShlEight(8);
      NumberBitString(codewords[0], 8);
      assert Stream(codewords)[..8] == bits;
      assert Stream(codewords)[8..] == Stream(codewords[1..]);
    }
  }

  lemma {:induction false} StreamPack(bits: seq<bool>)
    requires |bits| % 8 == 0
    ensures Stream(Pack(bits)) == bits
  {
    if bits != [] {
      StreamPack(bits[8..]);
      BitStringNumber(bits[..8]);
      assert bits == bits[..8] + bits[8..];
    }
  }

  lemma {:induction false} StreamAppend(a: seq<Byte>, b: seq<Byte>)
    ensures Stream(a + b) == Stream(a) + Stream(b)
  {
    if a == [] {
      assert a + b == b;
    } else {
      StreamAppend(a[1..], b);
      assert (a + b)[1..] == a[1..] + b;
    }
  }

  // ---- the segment and its reference reader ----

  const BYTE_MODE: nat := 4
  const MODE_BITS: nat := 4

  /** Mode indicator, character count and data. */
  function Segment(bytes: seq<Byte>, version: int): seq<bool> {
    BitString(BYTE_MODE, MODE_BITS) + BitString(|bytes|, CountBits(version)) + Stream(bytes)
  }

  /** The bytes that the bits hold from a place on, if there are as many. */
  function BytesAt(bits: seq<bool>, start: nat, count: nat): Option<seq<Byte>> {
    var end: nat := start + 8 * count;
    if |bits| < end then None else Some(Pack(bits[start..end]))
  }

  /** Reads one byte-mode segment from the start of the codewords. */
  function ReadSegment(codewords: seq<Byte>, version: int): Option<seq<Byte>> {
    var bits := Stream(codewords);
    var start := MODE_BITS + CountBits(version);
    if |bits| < start || Number(bits[..MODE_BITS]) != BYTE_MODE then None
    else
      BytesAt(bits, start, Number(bits[4..start]))
  }

  /** The alternating fill of section 7.4.10. */
  function PadBytes(n: nat): (r: seq<Byte>)
    ensures |r| == n
  {
    seq(n, i => if i % 2 == 0 then 0xec else 0x11)
  }

  const TERMINATOR: seq<bool> := [false, false, false, false]

  /** What section 7.4 prescribes for the data codewords of a symbol. */
  ghost predicate IsEncoding(codewords: seq<Byte>, bytes: seq<Byte>, version: int)
    requires IsVersion(version)
  {
    && |codewords| == TotalData(version)
    && exists n :: 0 <= n <= |codewords|
         && Stream(codewords) == Segment(bytes, version) + TERMINATOR + Stream(PadBytes(n))
  }

  /** Appends the length low bits of value. */
  method Push(bits: seq<bool>, value: nat, length: nat) returns (r: seq<bool>)
    ensures r == bits + BitString(value, length)
  {
    r := bits;
    var i := length;
    while i > 0
      invariant 0 <= i <= length
      invariant r == bits + BitString(value, length)[..length - i]
    {
      i := i - 1;
      BitStringAt(value, length, length - 1 - i);
      r := r + [(value / Shl(1, i)) % 2 == 1];
    }
  }

  /** Bit k from the left has weight 2^(length-1-k). */
  lemma {:induction false} BitStringAt(value: nat, length: nat, k: nat)
    requires k < length
    ensures Shl(1, length - 1 - k) > 0
    ensures BitString(value, length)[k] == ((value / Shl(1, length - 1 - k)) % 2 == 1)
  {
    if k < length - 1 {
      BitStringAt(value / 2, length - 1, k);
      HalveThenDivide(value, Shl(1, length - 2 - k));
    }
  }

  lemma HalveThenDivide(value: nat, d: nat)
    requires d > 0
    ensures value / 2 / d == value / (2 * d)
  {
    var q := value / 2 / d;
    var r := value / 2 % d;
    var s := 2 * r + value % 2;
    assert value == 2 * (d * q + r) + value % 2;
    assert value == (2 * d) * q + s && s < 2 * d;
    QuotientUnique(value, 2 * d, q, s);
  }

  method PushSegment(bytes: seq<Byte>, version: int) returns (bits: seq<bool>)
    ensures bits == Segment(bytes, version)
  {
    bits := Push([], BYTE_MODE, MODE_BITS);
    bits := Push(bits, |bytes|, CountBits(version));
    ghost var header := bits;
    for k := 0 to |bytes|
      invariant bits == header + Stream(bytes[..k])
    {
      bits := Push(bits, bytes[k], 8);
      StreamNext(bytes, k);
    }
    assert bytes[..|bytes|] == bytes;
  }

  /** Fills the symbol up with the two pad bytes in turn. */
  method PadCodewords(used: seq<Byte>, total: nat) returns (codewords: seq<Byte>, ghost padding: nat)
    requires |used| <= total
    ensures |codewords| == total && codewords == used + PadBytes(padding)
  {
    codewords := used;
    var padIndex := 0;
    while |codewords| < total
      invariant |codewords| <= total
      invariant codewords == used + PadBytes(padIndex)
    {
      codewords := codewords + [if padIndex % 2 == 0 then 0xec else 0x11];
      padIndex := padIndex + 1;
    }
    padding := padIndex;
  }

  method EncodeData(bytes: seq<Byte>, version: int) returns (codewords: seq<Byte>)
    requires IsVersion(version) && Fits(|bytes|, version)
    ensures IsEncoding(codewords, bytes, version)
  {
    var capacityBits := TotalData(version) * 8;
    var bits := PushSegment(bytes, version);
    var i := 0;
    while i < 4 && |bits| < capacityBits
      invariant 0 <= i <= 4 && bits == Segment(bytes, version) + TERMINATOR[..i]
    {
      bits := bits + [false];
      i := i + 1;
    }
    assert bits == Segment(bytes, version) + TERMINATOR;
    var whole := FillByte(bits);
    assert whole == bits;
    var used := PackBits(whole);
    ghost var padding;
    codewords, padding := PadCodewords(used, TotalData(version));
    Assembled(codewords, used, padding, bytes, version);
  }

  lemma Assembled(codewords: seq<Byte>, used: seq<Byte>, padding: nat, bytes: seq<Byte>, version: int)
    requires IsVersion(version) && |codewords| == TotalData(version) && codewords == used + PadBytes(padding)
    requires Stream(used) == Segment(bytes, version) + TERMINATOR && padding <= |codewords|
    ensures IsEncoding(codewords, bytes, version)
  {
    StreamAppend(used, PadBytes(padding));
  }

  /** Zeros up to the end of the byte. */
  method FillByte(bits: seq<bool>) returns (r: seq<bool>)
    ensures |r| % 8 == 0 && |bits| <= |r| < |bits| + 8
    ensures r[..|bits|] == bits && forall k :: |bits| <= k < |r| ==> !r[k]
  {
    r := bits;
    while |r| % 8 != 0
      invariant |bits| <= |r| < |bits| + 8
      invariant |bits| % 8 == 0 ==> |r| == |bits|
      invariant |bits| % 8 != 0 ==> |r| <= |bits| + 8 - |bits| % 8
      invariant r[..|bits|] == bits && forall k :: |bits| <= k < |r| ==> !r[k]
      decreases |bits| + 8 - |r|
    {
      r := r + [false];
    }
  }

  method PackByte(bits: seq<bool>) returns (value: Byte)
    requires |bits| == 8
    ensures BitString(value, 8) == bits
  {
    var v := 0;
    for j := 0 to 8
      invariant v == Number(bits[..j])
    {
      v := 2 * v + (if bits[j] then 1 else 0);
      assert bits[..j + 1][..j] == bits[..j];
    }
    assert bits[..8] == bits;
    NumberOfEight(bits);
    BitStringNumber(bits);
    value := v;
  }

  method PackBits(bits: seq<bool>) returns (codewords: seq<Byte>)
    requires |bits| % 8 == 0
    ensures Stream(codewords) == bits
  {
    codewords := [];
    var i := 0;
    while i < |bits|
      invariant 0 <= i <= |bits| && i % 8 == 0
      invariant Stream(codewords) == bits[..i]
    {
      var value := PackByte(bits[i..i + 8]);
      StreamOne(value);
      StreamAppend(codewords, [value]);
      codewords := codewords + [value];
      i := i + 8;
    }
  }

  lemma StreamOne(value: Byte)
    ensures Stream([value]) == BitString(value, 8)
  {
  }

  lemma StreamNext(bytes: seq<Byte>, k: nat)
    requires k < |bytes|
    ensures Stream(bytes[..k + 1]) == Stream(bytes[..k]) + BitString(bytes[k], 8)
  {
    assert bytes[..k + 1] == bytes[..k] + [bytes[k]];
    StreamAppend(bytes[..k], [bytes[k]]);
    StreamOne(bytes[k]);
  }

  // ---- reading back ----

  lemma CountFits(length: nat, version: int)
    requires IsVersion(version) && Fits(length, version)
    ensures length < Shl(1, CountBits(version))
  {
    ShlEight(8);
    if version == 10 {
      LongestContent(length, version);
      ShlGrows(8, 16);
    }
  }

  lemma {:induction false} ShlGrows(m: nat, n: nat)
    requires m <= n
    ensures Shl(1, m) <= Shl(1, n)
  {
    if m < n {
      ShlGrows(m, n - 1);
    }
  }

  /** The reference reader recovers the content of every encoding, whatever follows the codewords. */
  lemma ReadSegmentOfEncoding(codewords: seq<Byte>, bytes: seq<Byte>, version: int)
    requires IsVersion(version) && Fits(|bytes|, version) && IsEncoding(codewords, bytes, version)
    ensures ReadSegment(codewords, version) == Some(bytes)
  {
    var n :| 0 <= n <= |codewords|
      && Stream(codewords) == Segment(bytes, version) + TERMINATOR + Stream(PadBytes(n));
    var (mode, count) := (BitString(BYTE_MODE, MODE_BITS), BitString(|bytes|, CountBits(version)));
    Slices(Stream(codewords), mode, count, Stream(bytes), TERMINATOR + Stream(PadBytes(n)));
    ModeNumber(BYTE_MODE, MODE_BITS);
    CountFits(|bytes|, version);
    NumberBitString(|bytes|, CountBits(version));
    PackStream(bytes);
  }

  lemma Slices(bits: seq<bool>, a: seq<bool>, b: seq<bool>, c: seq<bool>, rest: seq<bool>)
    requires bits == a + b + c + rest
    ensures bits[..|a|] == a && bits[|a|..|a| + |b|] == b
    ensures bits[|a| + |b|..|a| + |b| + |c|] == c
  {
  }

  lemma ModeNumber(mode: nat, length: nat)
    requires mode == 4 && length == 4
    ensures Number(BitString(mode, length)) == mode
  {
    assert Shl(1, 4) == 16;
    NumberBitString(mode, length);
  }
}
