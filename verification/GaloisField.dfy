/** GF(256) modulo x^8 + x^4 + x^3 + x^2 + 1 (0x11d): the field product and the powers of x. */
module GaloisField {
  import opened Bits

  lemma ReduceByte(d: nat)
    requires 256 <= d < 512
    ensures Xor(d, 0x11d) < 256
  {
    assert Shl(1, 9) == 512 && Shl(1, 8) == 256;
    XorTop(d, 0x11d, 8);
  }

  /** Multiplication by x in the field: double and, past eight bits, subtract the modulus. */
  function XTimes(a: Byte): Byte {
    if 2 * a < 256 then 2 * a else (ReduceByte(2 * a); Xor(2 * a, 0x11d))
  }

  /** x^n * a. */
  function XTimesN(n: nat, a: Byte): Byte {
    if n == 0 then a else XTimes(XTimesN(n - 1, a))
  }

  /** x^n, the element the table stores at index n. */
  function Pow(n: nat): Byte {
    XTimesN(n, 1)
  }

  /** The sum of x^i * a over the set bits i < n of b. */
  function MulBits(a: Byte, b: nat, n: nat): Byte
    decreases n
  {
    if n == 0 then 0
    else
      var rest := MulBits(XTimes(a), b / 2, n - 1);
      XorByte(a, rest);
      if b % 2 == 1 then Xor(a, rest) else rest
  }

  const WIDTH: nat := 8

  /** The field product: schoolbook multiplication of polynomials, reducing at every step. */
  function Mul(a: Byte, b: Byte): Byte {
    MulBits(a, b, WIDTH)
  }

  /** The field sum. */
  function Add(a: Byte, b: Byte): Byte {
    XorByte(a, b);
    Xor(a, b)
  }

  // ---- linearity ----

  lemma XTimesAdd(a: Byte, b: Byte)
    ensures XTimes(Add(a, b)) == Add(XTimes(a), XTimes(b))
  {
    XorByte(a, b);
    XorDouble(a, b);
    if a >= 128 && b >= 128 {
      // 0x11d ^ 0x11d = 0
      XorExchange(2 * a, 0x11d, 2 * b, 0x11d);
      XorZero(0x11d);
      XorZero(Xor(2 * a, 2 * b));
    } else if a >= 128 {
      XorAssoc(2 * a, 2 * b, 0x11d);
      XorComm(2 * b, 0x11d);
      XorAssoc(2 * a, 0x11d, 2 * b);
    } else if b >= 128 {
      XorAssoc(2 * a, 2 * b, 0x11d);
    }
  }

  lemma {:induction false} MulBitsAddLeft(a: Byte, b: Byte, c: nat, n: nat)
    ensures MulBits(Add(a, b), c, n) == Add(MulBits(a, c, n), MulBits(b, c, n))
    decreases n
  {
    if n > 0 {
      XTimesAdd(a, b);
      MulBitsAddLeft(XTimes(a), XTimes(b), c / 2, n - 1);
      XorExchange(a, b, MulBits(XTimes(a), c / 2, n - 1), MulBits(XTimes(b), c / 2, n - 1));
    } else {
      XorZero(0);
    }
  }

  lemma {:induction false} MulBitsXTimes(a: Byte, b: nat, n: nat)
    ensures MulBits(XTimes(a), b, n) == XTimes(MulBits(a, b, n))
    decreases n
  {
    if n > 0 {
      MulBitsXTimes(XTimes(a), b / 2, n - 1);
      if b % 2 == 1 {
        XTimesAdd(a, MulBits(XTimes(a), b / 2, n - 1));
      }
    }
  }

  /** The n bits of b, each shifted by k, sum to b << k. */
  lemma {:induction false} MulBitsOne(k: nat, b: nat, n: nat)
    requires n >= 1 && Shl(1, k + n - 1) < 256 && b < Shl(1, n)
    ensures Shl(1, k) < 256 && MulBits(Shl(1, k), b, n) == Shl(b, k)
    decreases n
  {
    if n > 1 {
      var q := b / 2;
      MulBitsOne(k + 1, q, n - 1);
      ShlDouble(1, k);
      ShlDouble(q, k);
      XorDisjoint(q, k);
    } else {
      assert Shl(1, 1) == 2;
      XorZero(Shl(1, k));
      ShlDouble(0, k);
    }
  }

  lemma MulOneLeft(b: Byte)
    ensures Mul(1, b) == b
  {
    assert Shl(1, 8) == 256 && Shl(1, 7) == 128;
    MulBitsOne(0, b, WIDTH);
  }

  // ---- powers of x ----

  /** Multiplying by x^n is applying the shift n times. */
  lemma {:induction false} MulPow(n: nat, b: Byte)
    ensures Mul(Pow(n), b) == XTimesN(n, b)
  {
    if n > 0 {
      MulPow(n - 1, b);
      MulBitsXTimes(Pow(n - 1), b, WIDTH);
    } else {
      MulOneLeft(b);
    }
  }

  lemma {:induction false} XTimesNAdd(m: nat, n: nat, a: Byte)
    ensures XTimesN(m, XTimesN(n, a)) == XTimesN(m + n, a)
  {
    if m > 0 {
      XTimesNAdd(m - 1, n, a);
    }
  }

  /** Exponents add. */
  lemma PowAdd(m: nat, n: nat)
    ensures Mul(Pow(m), Pow(n)) == Pow(m + n)
  {
    MulPow(m, Pow(n));
    XTimesNAdd(m, n, 1);
  }
}
