/** Bitwise arithmetic on the non-negative integers that the source keeps in `number`. */
module Bits {

  /** An eight-bit value. */
  type Byte = b: int | 0 <= b < 256

  /** The exclusive or of two bits. */
  function Parity(i: nat, j: nat): nat {
    if i == j then 0 else 1
  }

  /** Bitwise exclusive or. */
  function Xor(a: nat, b: nat): nat
    decreases a + b
  {
    if a == 0 && b == 0 then 0 else 2 * Xor(a / 2, b / 2) + Parity(a % 2, b % 2)
  }

  /** a << n. */
  function Shl(a: nat, n: nat): (r: nat)
    ensures a > 0 ==> r > 0
  {
    if n == 0 then a else 2 * Shl(a, n - 1)
  }

  lemma {:induction false} XorComm(a: nat, b: nat)
    ensures Xor(a, b) == Xor(b, a)
    decreases a + b
  {
    if a + b > 0 {
      XorComm(a / 2, b / 2);
    }
  }

  lemma {:induction false} XorZero(a: nat)
    ensures Xor(a, 0) == a && Xor(0, a) == a && Xor(a, a) == 0
  {
    if a > 0 {
      XorZero(a / 2);
    }
  }

  /** One bit more: the recursive step of Xor in multiplication form. */
  lemma XorStep(a: nat, b: nat, i: nat, j: nat)
    requires i < 2 && j < 2
    ensures Xor(2 * a + i, 2 * b + j) == 2 * Xor(a, b) + Parity(i, j)
  {
    assert (2 * a + i) / 2 == a && (2 * b + j) / 2 == b;
  }

  /** XorStep for operands that already have names. */
  lemma XorNamed(a: nat, b: nat, i: nat, j: nat, c: nat, d: nat)
    requires i < 2 && j < 2 && c == 2 * a + i && d == 2 * b + j
    ensures Xor(c, d) == 2 * Xor(a, b) + Parity(i, j)
  {
    assert c / 2 == a && d / 2 == b;
    assert c % 2 == i && d % 2 == j;
  }

  lemma XorStepTwice(a: nat, b: nat, c: nat, x: nat, y: nat, z: nat)
    requires x < 2 && y < 2 && z < 2
    ensures Xor(Xor(2 * a + x, 2 * b + y), 2 * c + z) == 2 * Xor(Xor(a, b), c) + Parity(Parity(x, y), z)
  {
    XorStep(a, b, x, y);
    XorStep(Xor(a, b), c, Parity(x, y), z);
  }

  lemma XorRotateStep(a: nat, b: nat, c: nat, x: nat, y: nat, z: nat)
    requires x < 2 && y < 2 && z < 2
    requires Xor(Xor(a, b), c) == Xor(Xor(b, c), a)
    ensures Xor(Xor(2 * a + x, 2 * b + y), 2 * c + z) == Xor(Xor(2 * b + y, 2 * c + z), 2 * a + x)
  {
    XorStepTwice(a, b, c, x, y, z);
    XorStepTwice(b, c, a, y, z, x);
  }

  lemma {:induction false} XorRotate(a: nat, b: nat, c: nat)
    ensures Xor(Xor(a, b), c) == Xor(Xor(b, c), a)
    decreases a + b + c
  {
    if a + b + c > 0 {
      XorRotate(a / 2, b / 2, c / 2);
      XorRotateStep(a / 2, b / 2, c / 2, a % 2, b % 2, c % 2);
    }
  }

  lemma XorAssoc(a: nat, b: nat, c: nat)
    ensures Xor(Xor(a, b), c) == Xor(a, Xor(b, c))
  {
    XorRotate(a, b, c);
    XorComm(Xor(b, c), a);
  }

  /** The exchange law that sums of four terms need. */
  lemma XorExchange(a: nat, b: nat, c: nat, d: nat)
    ensures Xor(Xor(a, b), Xor(c, d)) == Xor(Xor(a, c), Xor(b, d))
  {
    XorAssoc(a, b, Xor(c, d));
    XorAssoc(b, c, d);
    XorComm(b, c);
    XorAssoc(c, b, d);
    XorAssoc(a, c, Xor(b, d));
  }

  /** A term can be moved across an equation. */
  lemma XorCancel(a: nat, b: nat)
    ensures Xor(Xor(a, b), b) == a
    ensures Xor(a, b) == 0 <==> a == b
  {
    XorAssoc(a, b, b);
    XorZero(b);
    XorZero(a);
  }

  /** Width and top bit of an exclusive or. */
  lemma {:induction false} XorTop(a: nat, b: nat, n: nat)
    requires a < Shl(1, n + 1) && b < Shl(1, n + 1)
    ensures Xor(a, b) < Shl(1, n + 1)
    ensures Xor(a, b) >= Shl(1, n) <==> ((a >= Shl(1, n)) != (b >= Shl(1, n)))
  {
    if n > 0 {
      XorTop(a / 2, b / 2, n - 1);
      XorStep(a / 2, b / 2, a % 2, b % 2);
    } else {
      assert Shl(1, 1) == 2;
      XorZero(0);
      XorStep(0, 0, a, b);
    }
  }

  lemma XorByte(a: nat, b: nat)
    requires a < 256 && b < 256
    ensures Xor(a, b) < 256
    ensures Xor(a, b) >= 128 <==> ((a >= 128) != (b >= 128))
  {
    assert Shl(1, 8) == 256 && Shl(1, 7) == 128;
    XorTop(a, b, 7);
  }

  lemma {:induction false} ShlDouble(q: nat, k: nat)
    ensures Shl(2 * q, k) == Shl(q, k + 1) == 2 * Shl(q, k)
  {
    if k > 0 {
      ShlDouble(q, k - 1);
    }
  }

  lemma XorDouble(a: nat, b: nat)
    ensures Xor(2 * a, 2 * b) == 2 * Xor(a, b)
  {
    XorStep(a, b, 0, 0);
  }

  /** A bit below the lowest set bit of the other operand adds without carry. */
  lemma {:induction false} XorDisjoint(q: nat, k: nat)
    ensures Xor(Shl(1, k), Shl(2 * q, k)) == Shl(2 * q + 1, k)
  {
    if k > 0 {
      XorDisjoint(q, k - 1);
      XorDouble(Shl(1, k - 1), Shl(2 * q, k - 1));
    } else {
      XorZero(q);
      XorStep(0, q, 1, 0);
    }
  }
}
