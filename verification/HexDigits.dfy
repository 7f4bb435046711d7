/** Exclusive or of given numbers, hexadecimal digit by digit. */
module HexDigits {
  import opened Bits

  /** The number that hexadecimal digits write. */
  function Hex(ds: seq<nat>): nat {
    if ds == [] then 0 else 16 * Hex(ds[..|ds| - 1]) + ds[|ds| - 1]
  }

  /** The four bits of a digit. */
  datatype Nibble = Nibble(b3: nat, b2: nat, b1: nat, b0: nat)

  function Digit(i: nat): Nibble {
    match i
    case 0 => Nibble(0, 0, 0, 0)
    case 1 => Nibble(0, 0, 0, 1)
    case 2 => Nibble(0, 0, 1, 0)
    case 3 => Nibble(0, 0, 1, 1)
    case 4 => Nibble(0, 1, 0, 0)
    case 5 => Nibble(0, 1, 0, 1)
    case 6 => Nibble(0, 1, 1, 0)
    case 7 => Nibble(0, 1, 1, 1)
    case 8 => Nibble(1, 0, 0, 0)
    case 9 => Nibble(1, 0, 0, 1)
    case 10 => Nibble(1, 0, 1, 0)
    case 11 => Nibble(1, 0, 1, 1)
    case 12 => Nibble(1, 1, 0, 0)
    case 13 => Nibble(1, 1, 0, 1)
    case 14 => Nibble(1, 1, 1, 0)
    case _ => Nibble(1, 1, 1, 1)
  }

  function Value(n: nat, b2: nat, b1: nat, b0: nat): nat {
    2 * (2 * (2 * n + b2) + b1) + b0
  }

  lemma DigitValue(i: nat, n: Nibble)
    requires i < 16 && n == Digit(i)
    ensures n.b3 < 2 && n.b2 < 2 && n.b1 < 2 && n.b0 < 2 && Value(n.b3, n.b2, n.b1, n.b0) == i
  {
  }

  function DigitXor(i: nat, j: nat): nat {
    var (m, n) := (Digit(i), Digit(j));
    Value(Parity(m.b3, n.b3), Parity(m.b2, n.b2), Parity(m.b1, n.b1), Parity(m.b0, n.b0))
  }

  /** Four bits more. */
  lemma XorNibble(a: nat, b: nat, m: Nibble, n: Nibble, c: nat, d: nat)
    requires m.b3 < 2 && m.b2 < 2 && m.b1 < 2 && m.b0 < 2 && n.b3 < 2 && n.b2 < 2 && n.b1 < 2 && n.b0 < 2
    requires c == Value(2 * a + m.b3, m.b2, m.b1, m.b0) && d == Value(2 * b + n.b3, n.b2, n.b1, n.b0)
    ensures Xor(c, d) == 16 * Xor(a, b)
                       + Value(Parity(m.b3, n.b3), Parity(m.b2, n.b2), Parity(m.b1, n.b1), Parity(m.b0, n.b0))
  {
    var (a1, b1) := (2 * a + m.b3, 2 * b + n.b3);
    var (a2, b2) := (2 * a1 + m.b2, 2 * b1 + n.b2);
    var (a3, b3) := (2 * a2 + m.b1, 2 * b2 + n.b1);
    XorNamed(a, b, m.b3, n.b3, a1, b1);
    XorNamed(a1, b1, m.b2, n.b2, a2, b2);
    XorNamed(a2, b2, m.b1, n.b1, a3, b3);
    XorNamed(a3, b3, m.b0, n.b0, c, d);
  }

  /** One digit more. */
  lemma XorDigit(a: nat, b: nat, i: nat, j: nat, c: nat, d: nat)
    requires i < 16 && j < 16 && c == 16 * a + i && d == 16 * b + j
    ensures Xor(c, d) == 16 * Xor(a, b) + DigitXor(i, j)
  {
    DigitValue(i, Digit(i));
    DigitValue(j, Digit(j));
    XorNibble(a, b, Digit(i), Digit(j), c, d);
  }

  lemma {:induction false} XorHex(a: seq<nat>, b: seq<nat>, r: seq<nat>)
    requires |a| == |b| == |r|
    requires forall k :: 0 <= k < |a| ==> a[k] < 16 && b[k] < 16 && r[k] == DigitXor(a[k], b[k])
    ensures Xor(Hex(a), Hex(b)) == Hex(r)
    decreases |a|
  {
    if a == [] {
      XorZero(0);
    } else {
      var n := |a| - 1;
      XorHex(a[..n], b[..n], r[..n]);
      XorDigit(Hex(a[..n]), Hex(b[..n]), a[n], b[n], Hex(a), Hex(b));
    }
  }

  lemma HexOfFive(ds: seq<nat>)
    requires |ds| == 5
    ensures Hex(ds) == 65536 * ds[0] + 4096 * ds[1] + 256 * ds[2] + 16 * ds[3] + ds[4]
  {
    assert Hex(ds[..1]) == ds[0] && ds[..2][..1] == ds[..1] && ds[..3][..2] == ds[..2];
    assert Hex(ds[..3]) == 16 * Hex(ds[..2]) + ds[2];
    assert ds[..4][..3] == ds[..3];
    assert Hex(ds[..4]) == 16 * Hex(ds[..3]) + ds[3];
  }

  lemma XorOf(a: seq<nat>, b: seq<nat>, r: seq<nat>, x: nat, y: nat, z: nat)
    requires |a| == |b| == |r| == 5 && forall k :: 0 <= k < 5 ==> a[k] < 16 && b[k] < 16
    requires r[0] == DigitXor(a[0], b[0]) && r[1] == DigitXor(a[1], b[1]) && r[2] == DigitXor(a[2], b[2])
    requires r[3] == DigitXor(a[3], b[3]) && r[4] == DigitXor(a[4], b[4])
    requires x == 65536 * a[0] + 4096 * a[1] + 256 * a[2] + 16 * a[3] + a[4]
    requires y == 65536 * b[0] + 4096 * b[1] + 256 * b[2] + 16 * b[3] + b[4]
    requires z == 65536 * r[0] + 4096 * r[1] + 256 * r[2] + 16 * r[3] + r[4]
    ensures Xor(x, y) == z
  {
    HexOfFive(a);
    HexOfFive(b);
    HexOfFive(r);
    XorHex(a, b, r);
  }
}
