/** Polynomials over GF(256), highest degree first. */
module Polynomials {
  import opened Bits
  import opened GaloisField
  import opened FieldOrder

  type Poly = seq<Byte>

  /** The value of p at y. */
  function Eval(p: Poly, y: Byte): Byte {
    if p == [] then 0 else Add(Mul(Eval(p[..|p| - 1], y), y), p[|p| - 1])
  }

  function AddPoly(p: Poly, q: Poly): (r: Poly)
    requires |p| == |q|
    ensures |r| == |p|
    ensures forall i :: 0 <= i < |p| ==> r[i] == Add(p[i], q[i])
  {
    seq(|p|, i requires 0 <= i < |p| => Add(p[i], q[i]))
  }

  function Scale(p: Poly, f: Byte): (r: Poly)
    ensures |r| == |p|
    ensures forall i :: 0 <= i < |p| ==> r[i] == Mul(p[i], f)
  {
    seq(|p|, i requires 0 <= i < |p| => Mul(p[i], f))
  }

  function Zeros(n: nat): (r: Poly)
    ensures |r| == n && forall i :: 0 <= i < n ==> r[i] == 0
  {
    seq(n, i => 0)
  }

  // ---- field identities in the shape the polynomial lemmas use ----

  lemma AddExchange(a: Byte, b: Byte, c: Byte, d: Byte)
    ensures Add(Add(a, b), Add(c, d)) == Add(Add(a, c), Add(b, d))
  {
    XorExchange(a, b, c, d);
  }

  lemma AddZero(a: Byte)
    ensures Add(a, 0) == a == Add(0, a) && Add(a, a) == 0
  {
    XorZero(a);
  }

  /** (s + t) y + (c + d) = (s y + c) + (t y + d) */
  lemma HornerAdd(s: Byte, t: Byte, y: Byte, c: Byte, d: Byte)
    ensures Add(Mul(Add(s, t), y), Add(c, d)) == Add(Add(Mul(s, y), c), Add(Mul(t, y), d))
  {
    MulAddLeft(s, t, y);
    AddExchange(Mul(s, y), Mul(t, y), c, d);
  }

  /** (s f) y + c f = (s y + c) f */
  lemma HornerScale(s: Byte, f: Byte, y: Byte, c: Byte)
    ensures Add(Mul(Mul(s, f), y), Mul(c, f)) == Mul(Add(Mul(s, y), c), f)
  {
    MulAssoc(s, f, y);
    MulComm(f, y);
    MulAssoc(s, y, f);
    MulAddLeft(Mul(s, y), c, f);
  }

  // ---- evaluation ----

  lemma EvalAppend(p: Poly, c: Byte, y: Byte)
    ensures Eval(p + [c], y) == Add(Mul(Eval(p, y), y), c)
  {
    assert (p + [c])[..|p|] == p;
  }

  lemma {:induction false} EvalAdd(p: Poly, q: Poly, y: Byte)
    requires |p| == |q|
    ensures Eval(AddPoly(p, q), y) == Add(Eval(p, y), Eval(q, y))
  {
    if p == [] {
      AddZero(0);
    } else {
      var n := |p| - 1;
      EvalAdd(p[..n], q[..n], y);
      assert AddPoly(p, q)[..n] == AddPoly(p[..n], q[..n]);
      HornerAdd(Eval(p[..n], y), Eval(q[..n], y), y, p[n], q[n]);
    }
  }

  lemma {:induction false} EvalScale(p: Poly, f: Byte, y: Byte)
    ensures Eval(Scale(p, f), y) == Mul(Eval(p, y), f)
  {
    if p == [] {
      MulZero(f);
    } else {
      var n := |p| - 1;
      EvalScale(p[..n], f, y);
      assert Scale(p, f)[..n] == Scale(p[..n], f);
      HornerScale(Eval(p[..n], y), f, y, p[n]);
    }
  }

  /** Leading zeros do not change the value: q is p behind zeros. */
  lemma {:induction false} EvalLeadingZeros(q: Poly, p: Poly, y: Byte)
    requires |p| <= |q| && q[|q| - |p|..] == p
    requires forall i :: 0 <= i < |q| - |p| ==> q[i] == 0
    ensures Eval(q, y) == Eval(p, y)
  {
    if |p| == |q| {
      assert q == p;
    } else if p == [] {
      EvalLeadingZeros(q[..|q| - 1], p, y);
      MulZero(y);
      AddZero(0);
    } else {
      var (q', p') := (q[..|q| - 1], p[..|p| - 1]);
      assert q'[|q'| - |p'|..] == p' by {
        assert q[|q| - |p|..][..|p| - 1] == q'[|q'| - |p'|..];
      }
      EvalLeadingZeros(q', p', y);
      assert q[|q| - 1] == q[|q| - |p|..][|p| - 1];
    }
  }

  // ---- multiplication by (x + e) ----

  function TimesRoot(p: Poly, e: Byte): Poly {
    AddPoly(p + [0], [0] + Scale(p, e))
  }

  lemma EvalTimesRoot(p: Poly, e: Byte, y: Byte)
    ensures Eval(TimesRoot(p, e), y) == Mul(Eval(p, y), Add(y, e))
  {
    var (s, u, v) := (Eval(p, y), p + [0], [0] + Scale(p, e));
    assert Eval(u, y) == Mul(s, y) by {
      EvalAppend(p, 0, y);
      AddZero(Mul(s, y));
    }
    assert Eval(v, y) == Mul(s, e) by {
      EvalLeadingZeros(v, Scale(p, e), y);
      EvalScale(p, e, y);
    }
    EvalAdd(u, v, y);
    MulAddRight(s, y, e);
  }

  lemma TimesRootAt(p: Poly, e: Byte, k: nat)
    requires k <= |p|
    ensures TimesRoot(p, e)[k] == Add(if k < |p| then p[k] else 0, if k > 0 then Mul(p[k - 1], e) else 0)
  {
  }

  // ---- a polynomial with as many roots as coefficients is zero ----

  /** Synthetic division of d by (x + e). */
  function Quotient(d: Poly, e: Byte): (q: Poly)
    requires d != []
    ensures |q| == |d| - 1
    ensures forall k :: 0 <= k < |q| ==> q[k] == Eval(d[..k + 1], e)
  {
    seq(|d| - 1, k requires 0 <= k < |d| - 1 => Eval(d[..k + 1], e))
  }

  lemma QuotientStep(d: Poly, e: Byte, k: nat)
    requires 0 < k < |d|
    ensures Eval(d[..k + 1], e) == Add(Mul(Eval(d[..k], e), e), d[k])
  {
    assert d[..k + 1] == d[..k] + [d[k]];
    EvalAppend(d[..k], d[k], e);
  }

  lemma CancelProduct(a: Byte, b: Byte, c: Byte)
    requires a == Add(b, c)
    ensures Add(a, b) == c
  {
    XorComm(b, c);
    XorCancel(c, b);
  }

  /** Division by (x + e) is exact when e is a root. */
  lemma QuotientTimesRoot(d: Poly, e: Byte)
    requires d != [] && Eval(d, e) == 0
    ensures d == TimesRoot(Quotient(d, e), e)
  {
    var q := Quotient(d, e);
    forall k | 0 <= k < |d|
      ensures d[k] == TimesRoot(q, e)[k]
    {
      QuotientCoefficient(d, e, k, q);
    }
  }

  lemma QuotientCoefficient(d: Poly, e: Byte, k: nat, q: Poly)
    requires k < |d| && Eval(d, e) == 0 && q == Quotient(d, e)
    ensures d[k] == TimesRoot(q, e)[k]
  {
    var high := if k < |q| then q[k] else 0;
    var low := if k > 0 then Mul(q[k - 1], e) else 0;
    assert d[..|d|] == d;
    TimesRootAt(q, e, k);
    if k > 0 {
      QuotientStep(d, e, k);
      CancelProduct(high, low, d[k]);
    } else {
      assert d[..1] == [] + [d[0]];
      EvalAppend([], d[0], e);
      MulZero(e);
      AddZero(d[0]);
    }
  }

  /** The first n powers of x are roots of d. */
  ghost predicate HasRoots(d: Poly, n: nat) {
    forall i :: 0 <= i < n ==> Eval(d, Pow(i)) == 0
  }

  ghost predicate IsZero(d: Poly) {
    forall i :: 0 <= i < |d| ==> d[i] == 0
  }

  lemma {:induction false} RootsForceZero(d: Poly)
    requires |d| <= 255 && HasRoots(d, |d|)
    ensures IsZero(d)
    decreases |d|
  {
    if d != [] {
      var q, e := DivideOut(d);
      RootsForceZero(q);
      TimesRootZero(d, q, e);
    }
  }

  lemma TimesRootZero(d: Poly, q: Poly, e: Byte)
    requires d == TimesRoot(q, e) && IsZero(q)
    ensures IsZero(d)
  {
    MulZero(e);
    AddZero(0);
  }

  /** Takes the last root out of d. */
  lemma DivideOut(d: Poly) returns (q: Poly, e: Byte)
    requires d != [] && |d| <= 255 && HasRoots(d, |d|)
    ensures |q| == |d| - 1 && d == TimesRoot(q, e) && HasRoots(q, |q|)
  {
    var n := |d| - 1;
    e := Pow(n);
    q := Quotient(d, e);
    assert Eval(d, Pow(n)) == 0;
    QuotientTimesRoot(d, e);
    forall i | 0 <= i < |q|
      ensures Eval(q, Pow(i)) == 0
    {
      RootOfQuotient(d, q, e, i, Pow(i));
    }
  }

  lemma RootOfQuotient(d: Poly, q: Poly, e: Byte, i: nat, y: Byte)
    requires |q| < 255 && e == Pow(|q|) && d == TimesRoot(q, e)
    requires i < |q| && y == Pow(i) && Eval(d, y) == 0
    ensures Eval(q, y) == 0
  {
    EvalTimesRoot(q, e, y);
    PowDistinct(i, |q|);
    XorCancel(y, e);
    if Eval(q, y) != 0 {
      MulNonZero(Eval(q, y), Add(y, e));
    }
  }
}
