/** x generates the 255 nonzero elements of GF(256), and the field laws that follow. */
module FieldOrder {
  import opened Arithmetic
  import opened Bits
  import opened GaloisField

  // ---- evaluation: a byte as eight booleans ----

  datatype Octet = Octet(b7: bool, b6: bool, b5: bool, b4: bool, b3: bool, b2: bool, b1: bool, b0: bool)

  function B(bit: bool): (n: nat)
    ensures n < 2
  {
    if bit then 1 else 0
  }

  /** The number of four bits. */
  function Nibble(b3: bool, b2: bool, b1: bool, b0: bool): (n: nat)
    ensures n < 16
  {
    2 * (2 * (2 * B(b3) + B(b2)) + B(b1)) + B(b0)
  }

  function Value(o: Octet): (n: nat)
    ensures n < 256
  {
    16 * Nibble(o.b7, o.b6, o.b5, o.b4) + Nibble(o.b3, o.b2, o.b1, o.b0)
  }

  /** Doubling with reduction, on booleans. */
  function Double(a: Octet): Octet {
    Octet(a.b6, a.b5, a.b4, a.b3 != a.b7, a.b2 != a.b7, a.b1 != a.b7, a.b0, a.b7)
  }

  /** n3 = 1 b6 b5 b4 b3 (binary) against m3 = 17. */
  lemma XorHigh(b6: nat, b5: nat, b4: nat, b3: nat, n7: nat, n6: nat, n5: nat, n4: nat, n3: nat,
                m7: nat, m6: nat, m5: nat, m4: nat, m3: nat)
    requires b6 < 2 && b5 < 2 && b4 < 2 && b3 < 2
    requires n7 == 1 && n6 == 2 * n7 + b6 && n5 == 2 * n6 + b5 && n4 == 2 * n5 + b4 && n3 == 2 * n4 + b3
    requires m7 == 1 && m6 == 2 * m7 && m5 == 2 * m6 && m4 == 2 * m5 && m3 == 2 * m4 + 1
    ensures Xor(n3, m3) == 2 * (2 * (2 * Parity(b6, 0) + Parity(b5, 0)) + Parity(b4, 0)) + Parity(b3, 1)
  {
    XorZero(n7);
    XorNamed(n7, m7, b6, 0, n6, m6);
    XorNamed(n6, m6, b5, 0, n5, m5);
    XorNamed(n5, m5, b4, 0, n4, m4);
    XorNamed(n4, m4, b3, 1, n3, m3);
  }

  /** n = 2a, with a = n3 b2 b1 b0 (binary), against the modulus m. */
  lemma XorLow(b2: nat, b1: nat, b0: nat, n3: nat, n2: nat, n1: nat, n0: nat, n: nat,
               m3: nat, m2: nat, m1: nat, m0: nat, m: nat)
    requires b2 < 2 && b1 < 2 && b0 < 2
    requires n2 == 2 * n3 + b2 && n1 == 2 * n2 + b1 && n0 == 2 * n1 + b0 && n == 2 * n0
    requires m2 == 2 * m3 + 1 && m1 == 2 * m2 + 1 && m0 == 2 * m1 && m == 2 * m0 + 1
    ensures Xor(n, m) == 2 * (2 * (2 * (2 * Xor(n3, m3) + Parity(b2, 1)) + Parity(b1, 1)) + Parity(b0, 0)) + 1
  {
    XorNamed(n3, m3, b2, 1, n2, m2);
    XorNamed(n2, m2, b1, 1, n1, m1);
    XorNamed(n1, m1, b0, 0, n0, m0);
    XorNamed(n0, m0, 0, 1, n, m);
  }

  /** The double of 1 b6 .. b0 (binary), reduced. */
  lemma DoubleWithCarry(b6: nat, b5: nat, b4: nat, b3: nat, b2: nat, b1: nat, b0: nat,
                        n6: nat, n5: nat, n4: nat, n3: nat, n2: nat, n1: nat, n0: nat, n: nat, m3: nat, m: nat)
    requires b6 < 2 && b5 < 2 && b4 < 2 && b3 < 2 && b2 < 2 && b1 < 2 && b0 < 2
    requires n6 == 2 + b6 && n5 == 2 * n6 + b5 && n4 == 2 * n5 + b4 && n3 == 2 * n4 + b3
    requires n2 == 2 * n3 + b2 && n1 == 2 * n2 + b1 && n0 == 2 * n1 + b0 && n == 2 * n0
    requires m3 == 17 && m == 0x11d
    ensures Xor(n, m) == 16 * (2 * (2 * (2 * Parity(b6, 0) + Parity(b5, 0)) + Parity(b4, 0)) + Parity(b3, 1))
                         + 2 * (2 * (2 * Parity(b2, 1) + Parity(b1, 1)) + Parity(b0, 0)) + 1
  {
    XorHigh(b6, b5, b4, b3, 1, n6, n5, n4, n3, 1, 2, 4, 8, m3);
    XorLow(b2, b1, b0, n3, n2, n1, n0, n, m3, 35, 71, 142, m);
  }

  lemma ParityBit(x: bool)
    ensures Parity(B(x), 0) == B(x) && Parity(B(x), 1) == B(x != true)
  {
  }

  /** Value(Double(o)) in the shape in which DoubleWithCarry computes it. */
  lemma DoubleParts(o: Octet)
    requires o.b7
    ensures Value(Double(o)) ==
      16 * (2 * (2 * (2 * Parity(B(o.b6), 0) + Parity(B(o.b5), 0)) + Parity(B(o.b4), 0)) + Parity(B(o.b3), 1))
      + 2 * (2 * (2 * Parity(B(o.b2), 1) + Parity(B(o.b1), 1)) + Parity(B(o.b0), 0)) + 1
  {
    ParityBit(o.b6);
    ParityBit(o.b5);
    ParityBit(o.b4);
    ParityBit(o.b3);
    ParityBit(o.b2);
    ParityBit(o.b1);
    ParityBit(o.b0);
  }

  lemma DoubleXor(o: Octet, n3: nat, n2: nat, n1: nat, n0: nat, n: nat)
    requires o.b7 && n3 == 16 + Nibble(o.b6, o.b5, o.b4, o.b3)
    requires n2 == 2 * n3 + B(o.b2) && n1 == 2 * n2 + B(o.b1) && n0 == 2 * n1 + B(o.b0) && n == 2 * n0
    ensures Value(Double(o)) == Xor(n, 0x11d)
  {
    DoubleParts(o);
    var n6 := 2 + B(o.b6);
    var n5 := 2 * n6 + B(o.b5);
    var n4 := 2 * n5 + B(o.b4);
    DoubleWithCarry(B(o.b6), B(o.b5), B(o.b4), B(o.b3), B(o.b2), B(o.b1), B(o.b0),
                    n6, n5, n4, n3, n2, n1, n0, n, 17, 0x11d);
  }

  lemma DoubleSmall(o: Octet)
    requires !o.b7
    ensures Value(Double(o)) == 2 * Value(o) < 256
  {
  }

  lemma ValueChain(o: Octet, n3: nat, n2: nat, n1: nat)
    requires o.b7 && n3 == 16 + Nibble(o.b6, o.b5, o.b4, o.b3)
    requires n2 == 2 * n3 + B(o.b2) && n1 == 2 * n2 + B(o.b1)
    ensures 128 <= Value(o) == 2 * n1 + B(o.b0)
  {
  }

  lemma DoubleCorrect(o: Octet)
    ensures Value(Double(o)) == XTimes(Value(o))
  {
    if o.b7 {
      var n3 := 16 + Nibble(o.b6, o.b5, o.b4, o.b3);
      var n2 := 2 * n3 + B(o.b2);
      var n1 := 2 * n2 + B(o.b1);
      ValueChain(o, n3, n2, n1);
      DoubleXor(o, n3, n2, n1, Value(o), 2 * Value(o));
    } else {
      DoubleSmall(o);
    }
  }

  function DoubleN(n: nat, o: Octet): Octet {
    if n == 0 then o else Double(DoubleN(n - 1, o))
  }

  lemma {:induction false} DoubleNCorrect(n: nat, o: Octet)
    ensures Value(DoubleN(n, o)) == XTimesN(n, Value(o))
  {
    if n > 0 {
      DoubleNCorrect(n - 1, o);
      DoubleCorrect(DoubleN(n - 1, o));
    }
  }

  /** Eight doublings, one parity of input bits per output bit. */
  function Double8(a: Octet): Octet {
    Octet((a.b3 != a.b4) != a.b5, (a.b2 != a.b3) != a.b4,
          (a.b1 != a.b2) != (a.b3 != a.b7), (a.b0 != a.b1) != (a.b2 != a.b6),
          (a.b0 != a.b1) != (a.b3 != a.b4), ((a.b0 != a.b2) != (a.b4 != a.b5)) != a.b7,
          (a.b1 != a.b5) != (a.b6 != a.b7), (a.b0 != a.b4) != (a.b5 != a.b6))
  }

  /** Four doublings. */
  function Double4(a: Octet): Octet {
    Octet(a.b3 != a.b7, (a.b2 != a.b6) != a.b7, (a.b1 != a.b5) != (a.b6 != a.b7), (a.b0 != a.b4) != (a.b5 != a.b6),
          (a.b4 != a.b5) != a.b7, a.b4 != a.b6, a.b5, a.b4)
  }

  lemma Double4Correct(a: Octet)
    ensures Double(Double(Double(Double(a)))) == Double4(a)
  {
  }

  lemma Double4Twice(a: Octet)
    ensures Double4(Double4(a)) == Double8(a)
  {
  }

  lemma Double8Correct(a: Octet, b: Octet)
    requires b == Double(Double(Double(Double(a))))
    ensures Double(Double(Double(Double(b)))) == Double8(a)
  {
    Double4Correct(a);
    Double4Correct(b);
    Double4Twice(a);
  }

  lemma DoubleNFour(n: nat, o: Octet)
    ensures DoubleN(n + 4, o) == Double(Double(Double(Double(DoubleN(n, o)))))
  {
    assert DoubleN(n + 2, o) == Double(Double(DoubleN(n, o)));
  }

  lemma DoubleNSplit(n: nat, o: Octet)
    ensures DoubleN(n + 8, o) == Double8(DoubleN(n, o))
  {
    DoubleNFour(n, o);
    DoubleNFour(n + 4, o);
    Double8Correct(DoubleN(n, o), DoubleN(n + 4, o));
  }

  /** Seventeen doublings. */
  function Double17(a: Octet): Octet {
    Octet(((a.b7 != a.b6) != (a.b5 != a.b3)) != a.b0, (a.b6 != a.b5) != (a.b4 != a.b2),
          (a.b5 != a.b4) != (a.b3 != a.b1), (a.b4 != a.b3) != (a.b2 != a.b0),
          ((a.b7 != a.b6) != (a.b5 != a.b2)) != (a.b1 != a.b0), (a.b7 != a.b4) != (a.b3 != a.b1),
          (a.b7 != a.b5) != a.b2, (a.b7 != a.b6) != (a.b4 != a.b1))
  }

  lemma Double17Bits(b7: bool, b6: bool, b5: bool, b4: bool, b3: bool, b2: bool, b1: bool, b0: bool)
    ensures Double(Double8(Double8(Octet(b7, b6, b5, b4, b3, b2, b1, b0))))
         == Double17(Octet(b7, b6, b5, b4, b3, b2, b1, b0))
  {
  }

  lemma Double17Correct(a: Octet)
    ensures Double(Double8(Double8(a))) == Double17(a)
  {
    Double17Bits(a.b7, a.b6, a.b5, a.b4, a.b3, a.b2, a.b1, a.b0);
  }

  /** x^(17k), seventeen doublings at a time. */
  function Pow17(k: nat): Octet {
    if k == 0 then Octet(false, false, false, false, false, false, false, true) else Double17(Pow17(k - 1))
  }

  lemma Seventeen(o: Octet)
    ensures DoubleN(17, o) == Double17(o)
  {
    DoubleNSplit(0, o);
    DoubleNSplit(8, o);
    Double17Correct(o);
  }

  lemma SeventeenMore(o: Octet, n: nat, next: Octet)
    requires Value(o) == Pow(n) && next == Double17(o)
    ensures Value(next) == Pow(n + 17)
  {
    Seventeen(o);
    DoubleNCorrect(17, o);
    XTimesNAdd(17, n, 1);
  }

  lemma {:induction false} Pow17Correct(k: nat)
    ensures Value(Pow17(k)) == Pow(17 * k)
  {
    if k > 0 {
      Pow17Correct(k - 1);
      SeventeenMore(Pow17(k - 1), 17 * (k - 1), Pow17(k));
    }
  }

  lemma Pow17Two(k: nat, n: nat, o: Octet, next: Octet)
    requires Pow17(k) == o && n == k + 2 && next == Double17(Double17(o))
    ensures Pow17(n) == next
  {
    assert Pow17(k + 1) == Double17(o);
  }

  lemma Pow17Three(one: nat, k: nat)
    requires one == 1 && k == 3
    ensures Pow17(one) == Octet(true, false, false, true, true, false, false, false)
    ensures Pow17(k) == Octet(false, false, false, false, true, false, true, false)
  {
    Pow17Two(one, k, Octet(true, false, false, true, true, false, false, false),
      Octet(false, false, false, false, true, false, true, false));
  }

  lemma Pow17Five(k: nat)
    requires k == 5
    ensures Pow17(k) == Octet(true, true, false, true, false, true, true, false)
  {
    Pow17Three(k - 4, k - 2);
    Pow17Two(k - 2, k, Octet(false, false, false, false, true, false, true, false),
      Octet(true, true, false, true, false, true, true, false));
  }

  lemma Pow17Nine(k: nat)
    requires k == 9
    ensures Pow17(k) == Octet(true, false, false, true, false, false, true, false)
  {
    Pow17Five(k - 4);
    Pow17Two(k - 4, k - 2, Octet(true, true, false, true, false, true, true, false),
      Octet(true, false, false, true, false, false, true, true));
    Pow17Two(k - 2, k, Octet(true, false, false, true, false, false, true, true),
      Octet(true, false, false, true, false, false, true, false));
  }

  lemma Pow17Fifteen(k: nat)
    requires k == 15
    ensures Pow17(k) == Octet(false, false, false, false, false, false, false, true)
  {
    Pow17Nine(k - 6);
    Pow17Two(k - 6, k - 4, Octet(true, false, false, true, false, false, true, false),
      Octet(true, true, false, true, true, true, false, false));
    Pow17Two(k - 4, k - 2, Octet(true, true, false, true, true, true, false, false),
      Octet(false, true, false, false, false, true, false, true));
    Pow17Two(k - 2, k, Octet(false, true, false, false, false, true, false, true),
      Octet(false, false, false, false, false, false, false, true));
  }

  /** 255 = 3 * 5 * 17; its maximal proper divisors are 85, 51 and 15. */
  lemma PowValues(n: nat)
    ensures n == 51 || n == 85 || n == 15 ==> Pow(n) != 1
    ensures n == 255 ==> Pow(n) == 1
  {
    if n == 51 {
      PowFiftyOne(n, 3);
    } else if n == 85 {
      PowEightyFive(n, 5);
    } else if n == 255 {
      PowFull(n, 15);
    } else if n == 15 {
      PowFifteen(n, 1);
    }
  }

  lemma PowFiftyOne(n: nat, k: nat)
    requires k == 3 && n == 17 * k
    ensures Pow(n) != 1
  {
    Pow17Three(k - 2, k);
    Pow17Correct(k);
  }

  lemma PowEightyFive(n: nat, k: nat)
    requires k == 5 && n == 17 * k
    ensures Pow(n) != 1
  {
    Pow17Five(k);
    Pow17Correct(k);
  }

  lemma PowFull(n: nat, k: nat)
    requires k == 15 && n == 17 * k
    ensures Pow(n) == 1
  {
    Pow17Fifteen(k);
    Pow17Correct(k);
  }

  /** x^15 = 1 would make x^17 = x^2. */
  lemma PowFifteen(n: nat, k: nat)
    requires k == 1 && n == 15
    ensures Pow(n) != 1
  {
    Pow17Three(k, k + 2);
    Pow17Correct(k);
    XTimesNAdd(2, n, 1);
    assert XTimesN(2, 1) == 4;
  }

  // ---- x has order 255 ----

  lemma {:induction false} PowNonZero(n: nat)
    ensures Pow(n) != 0
  {
    if n > 0 {
      PowNonZero(n - 1);
      XTimesNonZero(Pow(n - 1));
    }
  }

  lemma XTimesNonZero(a: Byte)
    requires a != 0
    ensures XTimes(a) != 0
  {
    XorCancel(2 * a, 0x11d);
  }

  lemma XTimesInjective(a: Byte, b: Byte)
    requires XTimes(a) == XTimes(b)
    ensures a == b
  {
    if a != b {
      XTimesAdd(a, b);
      XorCancel(a, b);
      XTimesNonZero(Add(a, b));
      XorZero(XTimes(a));
    }
  }

  /** x^n = x^m with m <= n only if x^(n-m) = 1. */
  lemma {:induction false} PowCancel(m: nat, n: nat)
    requires m <= n && Pow(m) == Pow(n)
    ensures Pow(n - m) == 1
  {
    if m > 0 {
      XTimesInjective(Pow(m - 1), Pow(n - 1));
      PowCancel(m - 1, n - 1);
    }
  }

  lemma {:induction false} PowMultiple(g: nat, q: nat)
    requires Pow(g) == 1
    ensures Pow(g * q) == 1
  {
    if q > 0 {
      PowMultiple(g, q - 1);
      assert g * q == g + g * (q - 1);
      XTimesNAdd(g, g * (q - 1), 1);
    } else {
      assert g * q == 0;
    }
  }

  /** Euclid by subtraction on two exponents of 1. */
  lemma {:induction false} PowGcd(a: nat, b: nat) returns (g: nat, p: nat, q: nat)
    requires a > 0 && b > 0 && Pow(a) == 1 && Pow(b) == 1
    ensures g > 0 && Pow(g) == 1 && a == g * p && b == g * q
    decreases a + b
  {
    if a == b {
      g, p, q := a, 1, 1;
    } else if a > b {
      PowCancel(b, a);
      g, p, q := PowGcd(a - b, b);
      assert a == g * p + g * q == g * (p + q);
      p := p + q;
    } else {
      PowCancel(a, b);
      g, p, q := PowGcd(a, b - a);
      assert b == g * p + g * q == g * (p + q);
      q := p + q;
    }
  }

  lemma ProductAtLeast(g: nat, p: nat)
    ensures g >= 16 && p >= 17 ==> g * p >= 16 * 17
  {
    if g >= 16 {
      assert g * p >= 16 * p;
    }
  }

  lemma DivisorOf255(g: nat, p: nat)
    requires g * p == 255 && p >= 2
    ensures p % 3 == 0 || p % 5 == 0 || p % 17 == 0
  {
    if p < 17 {
      assert p == 2 || p == 3 || p == 4 || p == 5 || p == 6 || p == 7 || p == 8 || p == 9
          || p == 10 || p == 11 || p == 12 || p == 13 || p == 14 || p == 15 || p == 16;
    } else {
      ProductAtLeast(g, p);
      assert g == 0 || g == 1 || g == 2 || g == 3 || g == 4 || g == 5 || g == 6 || g == 7 || g == 8
          || g == 9 || g == 10 || g == 11 || g == 12 || g == 13 || g == 14 || g == 15;
    }
  }

  /** If g = 255 / p is an exponent of 1, so is 255 / d for every divisor d of p. */
  lemma DivisorPower(g: nat, p: nat, d: nat, m: nat)
    requires d > 0 && p % d == 0 && g * p == d * m && Pow(g) == 1
    ensures Pow(m) == 1
  {
    var q := p / d;
    SwapFactors(g, d, q);
    CancelFactor(d, m, g * q);
    CancelFactor(d, g * q, m);
    PowMultiple(g, q);
  }

  lemma ProperDivisor(g: nat, p: nat)
    requires g * p == 255 && p >= 2
    ensures Pow(g) != 1
  {
    if Pow(g) == 1 {
      DivisorOf255(g, p);
      var d := if p % 3 == 0 then 3 else if p % 5 == 0 then 5 else 17;
      var m := if p % 3 == 0 then 85 else if p % 5 == 0 then 51 else 15;
      DivisorPower(g, p, d, m);
      PowValues(m);
    }
  }

  lemma CofactorAtLeastTwo(n: nat, k: nat, g: nat, p: nat, q: nat)
    requires 0 < k < n && n == g * p && k == g * q
    ensures p >= 2
  {
    ZeroProduct(g, q);
    CancelFactor(g, q, p);
  }

  lemma ZeroProduct(g: nat, q: nat)
    ensures g == 0 || q == 0 ==> g * q == 0
  {
  }

  /** No exponent below 255 gives 1. */
  lemma OrderAtLeast255(k: nat, n: nat)
    requires 0 < k < n == 255
    ensures Pow(k) != 1
  {
    if Pow(k) == 1 {
      PowValues(n);
      var g, p, q := PowGcd(n, k);
      CofactorAtLeastTwo(n, k, g, p, q);
      ProperDivisor(g, p);
    }
  }

  /** x is a generator: its first 255 powers are pairwise different. */
  lemma PowDistinct(m: nat, n: nat)
    requires m < n < 255
    ensures Pow(m) != Pow(n)
  {
    if Pow(m) == Pow(n) {
      PowCancel(m, n);
      OrderAtLeast255(n - m, 255);
    }
  }

  ghost function Powers(n: nat): set<nat> {
    if n == 0 then {} else Powers(n - 1) + {Pow(n - 1)}
  }

  lemma {:induction false} PowersMember(n: nat, a: nat) returns (i: nat)
    requires a in Powers(n)
    ensures i < n && a == Pow(i)
  {
    if a == Pow(n - 1) {
      i := n - 1;
    } else {
      i := PowersMember(n - 1, a);
    }
  }

  lemma {:induction false} PowersSize(n: nat)
    requires n <= 255
    ensures |Powers(n)| == n
  {
    if n > 0 {
      PowersSize(n - 1);
      if Pow(n - 1) in Powers(n - 1) {
        var i := PowersMember(n - 1, Pow(n - 1));
        PowDistinct(i, n - 1);
      }
    }
  }

  /** The numbers 1..n. */
  ghost function Range(n: nat): (s: set<nat>)
    ensures |s| == n
    ensures forall x :: x in s <==> 1 <= x <= n
  {
    if n == 0 then {} else Range(n - 1) + {n}
  }

  lemma SubsetOfEqualSize(a: set<nat>, b: set<nat>, x: nat)
    requires a <= b && |a| == |b| && x in b
    ensures x in a
  {
    assert b == a + (b - a);
    assert b - a == {};
  }

  /** Every nonzero element is one of the first 255 powers of x. */
  lemma PowSurjective(a: Byte) returns (k: nat)
    requires a != 0
    ensures k < 255 && Pow(k) == a
  {
    var n := 255;
    PowersSize(n);
    PowersInRange(n);
    SubsetOfEqualSize(Powers(n), Range(n), a);
    k := PowersMember(n, a);
  }

  lemma PowersInRange(n: nat)
    requires n == 255
    ensures Powers(n) <= Range(n)
  {
    forall b | b in Powers(n)
      ensures b in Range(n)
    {
      var i := PowersMember(n, b);
      PowNonZero(i);
    }
  }

  // ---- field laws ----

  lemma MulZero(a: Byte)
    ensures Mul(a, 0) == 0 == Mul(0, a)
  {
    MulBitsZero(a, a, WIDTH);
  }

  lemma {:induction false} MulBitsZero(a: Byte, b: nat, n: nat)
    ensures MulBits(a, 0, n) == 0 == MulBits(0, b, n)
    decreases n
  {
    if n > 0 {
      MulBitsZero(XTimes(a), b / 2, n - 1);
      XorZero(0);
    }
  }

  lemma MulComm(a: Byte, b: Byte)
    ensures Mul(a, b) == Mul(b, a)
  {
    MulZero(a);
    MulZero(b);
    if a != 0 && b != 0 {
      var i := PowSurjective(a);
      var j := PowSurjective(b);
      PowAdd(i, j);
      PowAdd(j, i);
    }
  }

  /** Both groupings of x^i, x^j and c shift c by i + j. */
  lemma PowMulAssoc(i: nat, j: nat, c: Byte, a: Byte, b: Byte, ab: Byte, bc: Byte)
    requires a == Pow(i) && b == Pow(j) && ab == Mul(a, b) && bc == Mul(b, c)
    ensures Mul(ab, c) == Mul(a, bc)
  {
    assert Mul(ab, c) == XTimesN(i + j, c) by {
      PowAdd(i, j);
      MulPow(i + j, c);
    }
    assert Mul(a, bc) == XTimesN(i, XTimesN(j, c)) by {
      MulPow(j, c);
      MulPow(i, bc);
    }
    XTimesNAdd(i, j, c);
  }

  lemma MulAssoc(a: Byte, b: Byte, c: Byte)
    ensures Mul(Mul(a, b), c) == Mul(a, Mul(b, c))
  {
    if a == 0 {
      MulZero(b);
      MulZero(c);
      MulZero(Mul(b, c));
    } else if b == 0 {
      MulZero(a);
      MulZero(c);
    } else {
      var i := PowSurjective(a);
      var j := PowSurjective(b);
      PowMulAssoc(i, j, c, a, b, Mul(a, b), Mul(b, c));
    }
  }

  lemma MulAddLeft(a: Byte, b: Byte, c: Byte)
    ensures Mul(Add(a, b), c) == Add(Mul(a, c), Mul(b, c))
  {
    MulBitsAddLeft(a, b, c, WIDTH);
  }

  lemma MulAddRight(a: Byte, b: Byte, c: Byte)
    ensures Mul(a, Add(b, c)) == Add(Mul(a, b), Mul(a, c))
  {
    MulComm(a, Add(b, c));
    MulComm(a, b);
    MulComm(a, c);
    MulAddLeft(b, c, a);
  }

  lemma MulOne(a: Byte)
    ensures Mul(1, a) == a == Mul(a, 1)
  {
    MulOneLeft(a);
    MulComm(a, 1);
  }

  /** A field has no zero divisors. */
  lemma MulNonZero(a: Byte, b: Byte)
    requires a != 0 && b != 0
    ensures Mul(a, b) != 0
  {
    var i := PowSurjective(a);
    var j := PowSurjective(b);
    PowAdd(i, j);
    PowNonZero(i + j);
  }
}
