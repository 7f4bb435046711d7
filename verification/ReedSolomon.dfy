/** The EXP/LOG tables, the generator polynomial and the Reed-Solomon remainder (qr.ts). */
module ReedSolomon {
  import opened Bits
  import opened GaloisField
  import opened FieldOrder
  import opened Polynomials

  // ---- the tables ----

  datatype Tables = Tables(exp: seq<Byte>, log: seq<nat>)

  ghost predicate TablesOk(t: Tables) {
    && |t.exp| == 512 && |t.log| == 256
    && (forall i :: 0 <= i < 512 ==> t.exp[i] == Pow(i))
    && (forall a :: 1 <= a < 256 ==> LogOk(t.log, a, 255))
  }

  /** Entry a of the logarithm table is an exponent of x below n. */
  ghost predicate LogOk(log: seq<nat>, a: Byte, n: nat)
    requires |log| == 256
  {
    log[a] < n && Pow(log[a]) == a
  }

  /** Doubling modulo 0x11d, as the table initialiser writes it. */
  method NextPower(x: Byte) returns (y: Byte)
    ensures y == XTimes(x)
  {
    var d := 2 * x;
    if d >= 0x100 {
      ReduceByte(d);
      d := Xor(d, 0x11d);
    }
    y := d;
  }

  /** The first 255 powers and their logarithms. */
  method FillPowers(exp: array<Byte>, log: array<nat>)
    requires exp.Length == 512 && log.Length == 256
    modifies exp, log
    ensures forall j :: 0 <= j < 255 ==> exp[j] == Pow(j)
    ensures forall j :: 0 <= j < 255 ==> LogOk(log[..], Pow(j), 255)
  {
    var x := 1;
    var i := 0;
    while i < 255
      invariant 0 <= i <= 255
      invariant 0 <= x < 256 && x == Pow(i)
      invariant forall j :: 0 <= j < i ==> exp[j] == Pow(j)
      invariant forall j :: 0 <= j < i ==> LogOk(log[..], Pow(j), i)
    {
      exp[i] := x;
      log[x] := i;
      x := NextPower(x);
      i := i + 1;
    }
  }

  /** Fills both tables; the powers repeat after 255. */
  method BuildTables() returns (t: Tables)
    ensures TablesOk(t)
  {
    var exp := new Byte[512](_ => 0);
    var log := new nat[256](_ => 0);
    FillPowers(exp, log);
    ghost var done := log[..];
    var i := 255;
    while i < 512
      invariant 255 <= i <= 512 && log[..] == done
      invariant forall j :: 0 <= j < i ==> exp[j] == Pow(j)
    {
      PowPeriod(i - 255, 255);
      exp[i] := exp[i - 255];
      i := i + 1;
    }
    LogComplete(done);
    t := Tables(exp[..], log[..]);
  }

  lemma LogComplete(log: seq<nat>)
    requires |log| == 256
    requires forall j :: 0 <= j < 255 ==> LogOk(log, Pow(j), 255)
    ensures forall a :: 1 <= a < 256 ==> LogOk(log, a, 255)
  {
    forall a | 1 <= a < 256
      ensures LogOk(log, a, 255)
    {
      var k := PowSurjective(a);
    }
  }

  lemma PowPeriod(n: nat, m: nat)
    requires m == 255
    ensures Pow(n + m) == Pow(n)
  {
    PowValues(m);
    XTimesNAdd(n, m, 1);
  }

  /** Table multiplication is the field product. */
  method GfMul(t: Tables, a: Byte, b: Byte) returns (c: Byte)
    requires TablesOk(t)
    ensures c == Mul(a, b)
  {
    if a == 0 || b == 0 {
      MulZero(a);
      MulZero(b);
      c := 0;
    } else {
      GfMulCorrect(t, a, b, t.log[a], t.log[b]);
      c := t.exp[t.log[a] + t.log[b]];
    }
  }

  lemma GfMulCorrect(t: Tables, a: Byte, b: Byte, i: nat, j: nat)
    requires TablesOk(t) && a != 0 && b != 0 && i == t.log[a] && j == t.log[b]
    ensures i + j < 512 && t.exp[i + j] == Mul(a, b)
  {
    assert LogOk(t.log, a, 255) && LogOk(t.log, b, 255);
    PowAdd(i, j);
  }

  // ---- the generator polynomial ----

  /** (y + x^0)(y + x^1) ... (y + x^(degree-1)) */
  function RootProduct(y: Byte, degree: nat): Byte {
    if degree == 0 then 1 else Mul(RootProduct(y, degree - 1), Add(y, Pow(degree - 1)))
  }

  lemma FactorZero(p: Byte, y: Byte, e: Byte)
    requires p == 0 || y == e
    ensures Mul(p, Add(y, e)) == 0
  {
    AddZero(y);
    MulZero(p);
    MulZero(Add(y, e));
  }

  lemma {:induction false} RootProductZero(i: nat, y: Byte, degree: nat)
    requires i < degree && y == Pow(i)
    ensures RootProduct(y, degree) == 0
  {
    if i < degree - 1 {
      RootProductZero(i, y, degree - 1);
    }
    FactorZero(RootProduct(y, degree - 1), y, Pow(degree - 1));
  }

  /** The monic polynomial of the given degree whose roots are the first powers of x. */
  ghost predicate IsGenerator(poly: Poly, degree: nat) {
    && |poly| == degree + 1 && poly[0] == 1
    && forall y :: 0 <= y < 256 ==> Eval(poly, y) == RootProduct(y, degree)
  }

  method GeneratorPoly(t: Tables, degree: nat) returns (poly: Poly)
    requires TablesOk(t) && degree <= 255
    ensures IsGenerator(poly, degree)
  {
    poly := [1];
    GeneratorStart();
    var i := 0;
    while i < degree
      invariant 0 <= i <= degree
      invariant IsGenerator(poly, i)
    {
      var next := MultiplyByRoot(t, poly, t.exp[i]);
      GeneratorStep(poly, next, i);
      poly := next;
      i := i + 1;
    }
  }

  /** After j entries of poly: next agrees with want before j and holds the scaled half at j. */
  ghost predicate Accumulated(next: Poly, want: Poly, poly: Poly, e: Byte, j: nat) {
    && j <= |poly| && |next| == |want| == |poly| + 1
    && (forall k :: 0 <= k < j ==> next[k] == want[k])
    && next[j] == (if j == 0 then 0 else Mul(poly[j - 1], e))
    && (forall k :: j < k < |next| ==> next[k] == 0)
  }

  lemma AccumulateStart(next: Poly, want: Poly, poly: Poly, e: Byte)
    requires next == Zeros(|poly| + 1) && want == TimesRoot(poly, e)
    ensures Accumulated(next, want, poly, e, 0)
  {
  }

  lemma AccumulateStep(next: Poly, after: Poly, want: Poly, poly: Poly, e: Byte, j: nat, low: Byte, high: Byte)
    requires Accumulated(next, want, poly, e, j) && j < |poly| && want == TimesRoot(poly, e)
    requires low == Add(next[j], Mul(poly[j], 1)) && high == Add(next[j + 1], Mul(poly[j], e))
    requires after == next[j := low][j + 1 := high]
    ensures Accumulated(after, want, poly, e, j + 1)
  {
    CoefficientStep(poly, e, j, next[j], want);
    AddZero(Mul(poly[j], e));
  }

  /** The inner loop: next accumulates poly shifted and poly scaled. */
  method MultiplyByRoot(t: Tables, poly: Poly, e: Byte) returns (next: Poly)
    requires TablesOk(t)
    ensures next == TimesRoot(poly, e)
  {
    ghost var want := TimesRoot(poly, e);
    next := Zeros(|poly| + 1);
    AccumulateStart(next, want, poly, e);
    var j := 0;
    while j < |poly|
      invariant 0 <= j <= |poly| && Accumulated(next, want, poly, e, j)
    {
      var kept := GfMul(t, poly[j], 1);
      var moved := GfMul(t, poly[j], e);
      var low, high := Add(next[j], kept), Add(next[j + 1], moved);
      ghost var before := next;
      next := next[j := low][j + 1 := high];
      AccumulateStep(before, next, want, poly, e, j, low, high);
      j := j + 1;
    }
    AccumulateEnd(next, want, poly, e);
  }

  lemma CoefficientStep(poly: Poly, e: Byte, j: nat, a: Byte, want: Poly)
    requires j < |poly| && a == (if j == 0 then 0 else Mul(poly[j - 1], e))
    requires want == TimesRoot(poly, e)
    ensures want[j] == Add(a, Mul(poly[j], 1))
  {
    MulOne(poly[j]);
    XorComm(a, poly[j]);
    TimesRootAt(poly, e, j);
  }

  lemma LastCoefficient(poly: Poly, e: Byte, want: Poly)
    requires want == TimesRoot(poly, e)
    ensures want[|poly|] == if |poly| == 0 then 0 else Mul(poly[|poly| - 1], e)
  {
    TimesRootAt(poly, e, |poly|);
    AddZero(if |poly| == 0 then 0 else Mul(poly[|poly| - 1], e));
  }

  lemma AccumulateEnd(next: Poly, want: Poly, poly: Poly, e: Byte)
    requires Accumulated(next, want, poly, e, |poly|) && want == TimesRoot(poly, e)
    ensures next == want
  {
    LastCoefficient(poly, e, want);
    forall k | 0 <= k < |want|
      ensures next[k] == want[k]
    {
    }
  }

  lemma GeneratorStart()
    ensures IsGenerator([1], 0)
  {
    forall y | 0 <= y < 256
      ensures Eval([1], y) == RootProduct(y, 0)
    {
      assert [1] == [] + [1];
      EvalAppend([], 1, y);
      MulZero(y);
      AddZero(1);
    }
  }

  lemma GeneratorStep(poly: Poly, next: Poly, degree: nat)
    requires IsGenerator(poly, degree) && next == TimesRoot(poly, Pow(degree))
    ensures IsGenerator(next, degree + 1)
  {
    AddZero(1);
    forall y | 0 <= y < 256
      ensures Eval(next, y) == RootProduct(y, degree + 1)
    {
      EvalTimesRoot(poly, Pow(degree), y);
    }
  }

  // ---- the remainder ----

  /** Data followed by correction is a multiple of the generator: it vanishes at its n roots. */
  ghost predicate IsCorrection(data: Poly, ec: Poly, n: nat) {
    |ec| == n && HasRoots(data + ec, n)
  }

  method Remainder(t: Tables, data: Poly, n: nat) returns (remainder: Poly)
    requires TablesOk(t) && 1 <= n <= 255
    ensures IsCorrection(data, remainder, n)
  {
    var gen := GeneratorPoly(t, n);
    remainder := Zeros(n);
    StartCorrection(n);
    for k := 0 to |data|
      invariant |remainder| == n && IsCorrection(data[..k], remainder, n)
    {
      ghost var before := remainder;
      var factor := Add(data[k], remainder[0]);
      remainder := remainder[1..] + [0];
      if factor != 0 {
        remainder := AddScaled(t, remainder, gen, factor);
      } else {
        AddScaledZero(remainder, gen);
      }
      CorrectionStep(gen, data[..k], data[k], before, remainder, n);
      assert data[..k + 1] == data[..k] + [data[k]];
    }
    assert data[..|data|] == data;
  }

  /** The register after shifting: plus the generator, without its leading 1, times the factor. */
  ghost function Shifted(register: Poly, gen: Poly, factor: Byte): Poly
    requires |gen| == |register| + 1
  {
    AddPoly(register, Scale(gen[1..], factor))
  }

  method AddScaled(t: Tables, register: Poly, gen: Poly, factor: Byte) returns (r: Poly)
    requires TablesOk(t) && |gen| == |register| + 1
    ensures r == Shifted(register, gen, factor)
  {
    r := register;
    var i := 0;
    while i < |register|
      invariant 0 <= i <= |register| == |r|
      invariant forall k :: 0 <= k < i ==> r[k] == Add(register[k], Mul(gen[k + 1], factor))
      invariant forall k :: i <= k < |r| ==> r[k] == register[k]
    {
      var c := GfMul(t, gen[i + 1], factor);
      r := r[i := Add(r[i], c)];
      i := i + 1;
    }
  }

  lemma AddScaledZero(register: Poly, gen: Poly)
    requires |gen| == |register| + 1
    ensures register == Shifted(register, gen, 0)
  {
    forall k | 0 <= k < |register|
      ensures register[k] == Shifted(register, gen, 0)[k]
    {
      MulZero(gen[k + 1]);
      AddZero(register[k]);
    }
  }

  lemma StartCorrection(n: nat)
    ensures IsCorrection([], Zeros(n), n)
  {
    assert [] + Zeros(n) == Zeros(n);
    forall i | 0 <= i < n
      ensures Eval(Zeros(n), Pow(i)) == 0
    {
      EvalLeadingZeros(Zeros(n), [], Pow(i));
    }
  }

  /** One byte of data: the old codeword, shifted, plus a multiple of the generator. */
  lemma CorrectionStep(gen: Poly, data: Poly, byte: Byte, before: Poly, after: Poly, n: nat)
    requires n >= 1 && IsGenerator(gen, n) && IsCorrection(data, before, n)
    requires after == Shifted(before[1..] + [0], gen, Add(byte, before[0]))
    ensures IsCorrection(data + [byte], after, n)
  {
    var factor := Add(byte, before[0]);
    var prior := data + before + [0];
    var multiple := Zeros(|data|) + Scale(gen, factor);
    CodewordStep(gen, data, byte, before, after, n);
    forall i | 0 <= i < n
      ensures Eval(data + [byte] + after, Pow(i)) == 0
    {
      var y := Pow(i);
      assert Eval(data + before, y) == 0;
      VanishAppend(data + before, y);
      VanishMultiple(gen, n, i, y, factor, multiple);
      EvalAdd(prior, multiple, y);
      AddZero(0);
    }
  }

  lemma VanishAppend(p: Poly, y: Byte)
    requires Eval(p, y) == 0
    ensures Eval(p + [0], y) == 0
  {
    EvalAppend(p, 0, y);
    MulZero(y);
    AddZero(0);
  }

  lemma VanishMultiple(gen: Poly, n: nat, i: nat, y: Byte, factor: Byte, multiple: Poly)
    requires IsGenerator(gen, n) && i < n && y == Pow(i)
    requires |multiple| >= |gen| && multiple == Zeros(|multiple| - |gen|) + Scale(gen, factor)
    ensures Eval(multiple, y) == 0
  {
    EvalLeadingZeros(multiple, Scale(gen, factor), y);
    EvalScale(gen, factor, y);
    RootProductZero(i, y, n);
    MulZero(factor);
  }

  lemma CodewordStep(gen: Poly, data: Poly, byte: Byte, before: Poly, after: Poly, n: nat)
    requires n >= 1 && |gen| == n + 1 && gen[0] == 1 && |before| == n
    requires after == Shifted(before[1..] + [0], gen, Add(byte, before[0]))
    ensures data + [byte] + after
         == AddPoly(data + before + [0], Zeros(|data|) + Scale(gen, Add(byte, before[0])))
  {
    var factor := Add(byte, before[0]);
    var sum := AddPoly(data + before + [0], Zeros(|data|) + Scale(gen, factor));
    forall k | 0 <= k < |sum|
      ensures sum[k] == (data + [byte] + after)[k]
    {
      if k < |data| {
        AddZero(data[k]);
      } else if k == |data| {
        MulOne(factor);
        XorComm(byte, before[0]);
        CancelProduct(factor, before[0], byte);
        XorComm(factor, before[0]);
      }
    }
  }

  /** The correction of a block is determined by its data. */
  lemma CorrectionUnique(data: Poly, r: Poly, s: Poly, n: nat)
    requires n <= 255 && IsCorrection(data, r, n) && IsCorrection(data, s, n)
    ensures r == s
  {
    var d := AddPoly(r, s);
    var sum := AddPoly(data + r, data + s);
    forall k | 0 <= k < |data|
      ensures sum[k] == 0
    {
      AddZero(data[k]);
    }
    assert sum[|sum| - n..] == d;
    forall i | 0 <= i < n
      ensures Eval(d, Pow(i)) == 0
    {
      assert Eval(data + r, Pow(i)) == 0 && Eval(data + s, Pow(i)) == 0;
      EvalAdd(data + r, data + s, Pow(i));
      EvalLeadingZeros(sum, d, Pow(i));
      AddZero(0);
    }
    RootsForceZero(d);
    forall k | 0 <= k < n
      ensures r[k] == s[k]
    {
      assert d[k] == 0;
      XorCancel(r[k], s[k]);
    }
  }
}
