/** The minimum distance of the Reed-Solomon code: how much damage a block survives. */
module Distance {
  import opened Bits
  import opened GaloisField
  import opened FieldOrder
  import opened Polynomials
  import opened QrEncoding
  import opened QrInterleaving
  import opened ReedSolomon

  // ---- replacing y by x y ----

  /** The coefficient of y^k times x^k. */
  function Twist(c: Poly): (r: Poly)
    ensures |r| == |c|
    ensures forall i :: 0 <= i < |c| ==> r[i] == Mul(c[i], Pow(|c| - 1 - i))
  {
    seq(|c|, i requires 0 <= i < |c| => Mul(c[i], Pow(|c| - 1 - i)))
  }

  lemma PowNext(a: Byte, m: nat, n: nat)
    requires n == m + 1
    ensures Mul(a, Pow(n)) == Mul(Mul(a, Pow(m)), Pow(1))
  {
    PowAdd(m, 1);
    MulAssoc(a, Pow(m), Pow(1));
  }

  lemma TwistEntry(c: Poly, i: nat, m: nat)
    requires i < |c| && m == |c| - 1 - i
    ensures Twist(c)[i] == Mul(c[i], Pow(m))
  {
  }

  lemma TwistAt(c: Poly, p: Poly, n: nat, i: nat)
    requires |c| == n + 1 && |p| == n && p == c[..n] && i < n
    ensures Twist(c)[i] == Mul(Twist(p)[i], Pow(1))
  {
    var (low, high) := (n - 1 - i, n - i);
    TwistEntry(p, i, low);
    TwistEntry(c, i, high);
    PowNext(p[i], low, high);
  }

  lemma TwistPrefix(c: Poly, p: Poly, n: nat)
    requires |c| == n + 1 && |p| == n && p == c[..n]
    ensures Twist(c)[..n] == Scale(Twist(p), Pow(1))
  {
    forall i | 0 <= i < n
      ensures Twist(c)[i] == Mul(Twist(p)[i], Pow(1))
    {
      TwistAt(c, p, n, i);
    }
  }

  /** (s x) y = s (x y) */
  lemma TwistStep(s: Byte, x: Byte, y: Byte)
    ensures Mul(Mul(s, x), y) == Mul(s, Mul(y, x))
  {
    MulAssoc(s, x, y);
    MulComm(x, y);
  }

  lemma {:induction false} EvalTwist(c: Poly, y: Byte)
    ensures Eval(Twist(c), y) == Eval(c, Mul(y, Pow(1)))
  {
    if c != [] {
      var n := |c| - 1;
      EvalTwist(c[..n], y);
      TwistPrefix(c, c[..n], n);
      EvalScale(Twist(c[..n]), Pow(1), y);
      TwistStep(Eval(c[..n], Mul(y, Pow(1))), Pow(1), y);
      MulOne(c[n]);
    }
  }

  // ---- removing one entry at the price of one root ----

  /** The positions of the entries that are not zero. */
  ghost function Support(c: Poly): set<int> {
    set i | 0 <= i < |c| && c[i] != 0
  }

  /** Entry i times the difference of the powers at positions i and j. */
  function Strike(c: Poly, j: nat): (r: Poly)
    requires j < |c|
    ensures |r| == |c|
  {
    AddPoly(Twist(c), Scale(c, Pow(|c| - 1 - j)))
  }

  lemma StrikeAt(c: Poly, j: nat, i: nat)
    requires j < |c| <= 255 && i < |c|
    ensures Strike(c, j)[i] == 0 <==> c[i] == 0 || i == j
  {
    var (m, n) := (|c| - 1 - i, |c| - 1 - j);
    PowersDiffer(m, n);
    StrikeEntry(c[i], Pow(m), Pow(n));
  }

  /** a p + a q is zero just when a is or p = q. */
  lemma StrikeEntry(a: Byte, p: Byte, q: Byte)
    ensures Add(Mul(a, p), Mul(a, q)) == 0 <==> a == 0 || p == q
  {
    MulAddRight(a, p, q);
    XorCancel(p, q);
    MulZero(a);
    MulZero(Add(p, q));
    if a != 0 && p != q {
      MulNonZero(a, Add(p, q));
    }
  }

  lemma PowersDiffer(m: nat, n: nat)
    requires m < 255 && n < 255
    ensures Pow(m) == Pow(n) <==> m == n
  {
    if m < n {
      PowDistinct(m, n);
    } else if n < m {
      PowDistinct(n, m);
    }
  }

  lemma StrikeSupport(c: Poly, j: nat)
    requires j < |c| <= 255
    ensures Support(Strike(c, j)) == Support(c) - {j}
  {
    forall i | 0 <= i < |c|
      ensures i in Support(Strike(c, j)) <==> i in Support(c) && i != j
    {
      StrikeAt(c, j, i);
    }
  }

  lemma StrikeRoots(c: Poly, j: nat, n: nat)
    requires j < |c| && HasRoots(c, n + 1)
    ensures HasRoots(Strike(c, j), n)
  {
    var q := Pow(|c| - 1 - j);
    forall i | 0 <= i < n
      ensures Eval(Strike(c, j), Pow(i)) == 0
    {
      PowAdd(i, 1);
      assert Eval(c, Pow(i)) == 0 && Eval(c, Pow(i + 1)) == 0;
      EvalAdd(Twist(c), Scale(c, q), Pow(i));
      EvalTwist(c, Pow(i));
      EvalScale(c, q, Pow(i));
      MulZero(q);
      AddZero(0);
    }
  }

  lemma LastEntry(c: Poly, p: Poly, y: Byte)
    requires c != [] && p == c[..|c| - 1] && IsZero(p)
    ensures Eval(c, y) == c[|c| - 1]
  {
    EvalLeadingZeros(p, [], y);
    MulZero(y);
    AddZero(c[|c| - 1]);
  }

  lemma LastZero(c: Poly, p: Poly, value: Byte)
    requires c != [] && p == c[..|c| - 1] && c[|c| - 1] == 0 && Eval(p, 1) == value
    ensures Eval(c, 1) == value
  {
    MulOne(value);
    AddZero(value);
  }

  /** The value at 1 of a polynomial with one entry is that entry. */
  lemma {:induction false} OneEntry(c: Poly, j: nat)
    requires j < |c| && forall i :: 0 <= i < |c| && i != j ==> c[i] == 0
    ensures Eval(c, 1) == c[j]
  {
    var n := |c| - 1;
    if j == n {
      LastEntry(c, c[..n], 1);
    } else {
      OneEntry(c[..n], j);
      LastZero(c, c[..n], c[j]);
    }
  }

  // ---- the minimum distance ----

  /** A codeword that is not zero has more entries than roots. */
  lemma {:induction false} MinimumDistance(c: Poly, n: nat)
    requires |c| <= 255 && HasRoots(c, n) && !IsZero(c)
    ensures |Support(c)| > n
    decreases n
  {
    var j :| 0 <= j < |c| && c[j] != 0;
    assert j in Support(c);
    if n > 0 {
      var d := Strike(c, j);
      StrikeSupport(c, j);
      StrikeRoots(c, j, n - 1);
      NotOneEntry(c, j, d, n);
      MinimumDistance(d, n - 1);
    }
  }

  lemma NotOneEntry(c: Poly, j: nat, d: Poly, n: nat)
    requires j < |c| && n > 0 && HasRoots(c, n) && c[j] != 0
    requires |d| == |c| && Support(d) == Support(c) - {j}
    ensures !IsZero(d)
  {
    assert Eval(c, Pow(0)) == 0;
    if IsZero(d) {
      forall i | 0 <= i < |c| && i != j
        ensures c[i] == 0
      {
        assert i !in Support(d);
      }
      OneEntry(c, j);
    }
  }

  /** The positions at which two words differ. */
  ghost function Differing(a: Poly, b: Poly): set<int>
    requires |a| == |b|
  {
    set i | 0 <= i < |a| && a[i] != b[i]
  }

  /** Two codewords of one length differ in more positions than the code has roots. */
  lemma CodewordsFarApart(a: Poly, b: Poly, n: nat)
    requires |a| == |b| <= 255 && HasRoots(a, n) && HasRoots(b, n) && a != b
    ensures |Differing(a, b)| > n
  {
    var sum := AddPoly(a, b);
    forall i | 0 <= i < |a|
      ensures sum[i] == 0 <==> a[i] == b[i]
    {
      XorCancel(a[i], b[i]);
    }
    assert Support(sum) == Differing(a, b);
    forall i | 0 <= i < n
      ensures Eval(sum, Pow(i)) == 0
    {
      assert Eval(a, Pow(i)) == 0 && Eval(b, Pow(i)) == 0;
      EvalAdd(a, b, Pow(i));
      AddZero(0);
    }
    MinimumDistance(sum, n);
  }

  lemma SubsetSize(a: set<int>, b: set<int>)
    requires a <= b
    ensures |a| <= |b|
  {
    assert b == a + (b - a);
  }

  lemma Triangle(a: Poly, b: Poly, r: Poly)
    requires |a| == |b| == |r|
    ensures |Differing(a, b)| <= |Differing(a, r)| + |Differing(b, r)|
  {
    SubsetSize(Differing(a, b), Differing(a, r) + Differing(b, r));
  }

  /** Damage to at most n / 2 codewords leaves one block that can have been sent. */
  lemma UniqueDecoding(data: Poly, ec: Poly, data': Poly, ec': Poly, received: Poly, n: nat)
    requires IsCorrection(data, ec, n) && IsCorrection(data', ec', n)
    requires |received| == |data + ec| == |data' + ec'| <= 255
    requires 2 * |Differing(data + ec, received)| <= n && 2 * |Differing(data' + ec', received)| <= n
    ensures data == data' && ec == ec'
  {
    var (a, b) := (data + ec, data' + ec');
    Triangle(a, b, received);
    if a != b {
      CodewordsFarApart(a, b, n);
    }
    assert data == a[..|data|] && ec == a[|data|..];
  }

  // ---- whole symbols ----

  /** Block b and its correction, as they are read from the interleaved codewords. */
  ghost function Received(symbol: seq<Byte>, spec: BlockSpec, b: nat): seq<Byte>
    requires WellFormed(spec) && |symbol| == SymbolLength(spec) && b < BlockCount(spec)
  {
    ReadBlock(symbol, spec, b) + ReadCorrection(symbol, spec, b)
  }

  /** At most half as many codewords of each block are damaged as it has correction codewords. */
  ghost predicate Repairable(symbol: seq<Byte>, received: seq<Byte>, spec: BlockSpec)
    requires WellFormed(spec) && |symbol| == |received| == SymbolLength(spec)
  {
    forall b :: 0 <= b < BlockCount(spec) ==>
      2 * |Differing(Received(symbol, spec, b), Received(received, spec, b))| <= spec.ecPerBlock
  }

  lemma BlockSurvives(symbol: seq<Byte>, other: seq<Byte>, received: seq<Byte>, spec: BlockSpec,
                      codewords: seq<Byte>, codewords': seq<Byte>, b: nat)
    requires ReadsAs(symbol, spec, codewords) && ReadsAs(other, spec, codewords')
    requires |received| == SymbolLength(spec) && b < BlockCount(spec)
    requires BlockLength(spec, b) + spec.ecPerBlock <= 255
    requires Repairable(symbol, received, spec) && Repairable(other, received, spec)
    ensures ReadBlock(symbol, spec, b) == ReadBlock(other, spec, b)
  {
    UniqueDecoding(ReadBlock(symbol, spec, b), ReadCorrection(symbol, spec, b),
      ReadBlock(other, spec, b), ReadCorrection(other, spec, b), Received(received, spec, b), spec.ecPerBlock);
  }

  lemma {:induction false} SameData(symbol: seq<Byte>, other: seq<Byte>, spec: BlockSpec, n: nat)
    requires WellFormed(spec) && |symbol| == |other| == SymbolLength(spec) && n <= BlockCount(spec)
    requires forall b :: 0 <= b < n ==> ReadBlock(symbol, spec, b) == ReadBlock(other, spec, b)
    ensures ReadData(symbol, spec, n) == ReadData(other, spec, n)
  {
    if n > 0 {
      SameData(symbol, other, spec, n - 1);
    }
  }

  lemma BlocksAreShort(version: int, b: nat)
    requires IsVersion(version) && b < BlockCount(EccM(version))
    ensures BlockLength(EccM(version), b) + EccM(version).ecPerBlock <= 255
  {
  }

  /** Two contents whose symbols a damaged one could both have been are the same content. */
  lemma DamageTolerated(version: int, bytes: seq<Byte>, bytes': seq<Byte>, codewords: seq<Byte>, codewords': seq<Byte>,
                        symbol: seq<Byte>, other: seq<Byte>, received: seq<Byte>)
    requires IsVersion(version) && Fits(|bytes|, version) && Fits(|bytes'|, version)
    requires IsEncoding(codewords, bytes, version) && IsEncoding(codewords', bytes', version)
    requires ReadsAs(symbol, EccM(version), codewords) && ReadsAs(other, EccM(version), codewords')
    requires |received| == SymbolLength(EccM(version))
    requires Repairable(symbol, received, EccM(version)) && Repairable(other, received, EccM(version))
    ensures bytes == bytes'
  {
    var spec := EccM(version);
    forall b | 0 <= b < BlockCount(spec)
      ensures ReadBlock(symbol, spec, b) == ReadBlock(other, spec, b)
    {
      BlocksAreShort(version, b);
      BlockSurvives(symbol, other, received, spec, codewords, codewords', b);
    }
    SameData(symbol, other, spec, BlockCount(spec));
    ReadSegmentOfEncoding(codewords, bytes, version);
    ReadSegmentOfEncoding(codewords', bytes', version);
  }
}
