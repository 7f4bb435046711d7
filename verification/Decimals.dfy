/** Decimal digit strings: their value, their canonical form and their order as text. */
module Decimals {
  import opened Arithmetic

  predicate IsDigit(c: char) {
    '0' <= c <= '9'
  }

  predicate AllDigits(s: string) {
    forall i :: 0 <= i < |s| ==> IsDigit(s[i])
  }

  /** A digit is worth its distance from the code point of zero. */
  lemma DigitCharacters(c: char)
    ensures IsDigit(c) <==> 48 <= c as int <= 57
    ensures IsDigit(c) ==> DigitOf(c) == c as int - 48 && DigitChar(DigitOf(c)) == c
  {
  }

  function DigitOf(c: char): nat
    requires IsDigit(c)
  {
    c as int - '0' as int
  }

  function DigitChar(d: nat): char
    requires d < 10
  {
    (d + '0' as int) as char
  }

  function Pow10(n: nat): (p: nat)
    ensures p > 0
  {
    if n == 0 then 1 else 10 * Pow10(n - 1)
  }

  /** The number that a digit string writes; leading zeros count for nothing. */
  function Value(s: string): nat
    requires AllDigits(s)
  {
    if s == "" then 0 else 10 * Value(s[..|s| - 1]) + DigitOf(s[|s| - 1])
  }

  /** The shortest digit string of a number. */
  function Digits(n: nat): (s: string)
    ensures AllDigits(s) && s != ""
  {
    if n < 10 then [DigitChar(n)] else Digits(n / 10) + [DigitChar(n % 10)]
  }

  /** How an integer is printed. */
  function IntegerText(n: int): string {
    if n < 0 then "-" + Digits(-n) else Digits(n)
  }

  function Zeros(n: nat): (s: string)
    ensures AllDigits(s) && |s| == n
  {
    seq(n, _ => '0')
  }

  function PadStart(s: string, width: int): string {
    if |s| >= width then s else Zeros(width - |s|) + s
  }

  function PadEnd(s: string, width: int): string {
    if |s| >= width then s else s + Zeros(width - |s|)
  }

  /** Order of texts by character, as a comparison or a maximum over them sees it. */
  predicate TextLess(a: string, b: string) {
    b != "" && (a == "" || a[0] < b[0] || (a[0] == b[0] && TextLess(a[1..], b[1..])))
  }

  // ---- values ----

  lemma {:induction false} Pow10Mono(m: nat, n: nat)
    requires m <= n
    ensures Pow10(m) <= Pow10(n)
  {
    if m < n {
      Pow10Mono(m, n - 1);
    }
  }

  lemma {:induction false} Pow10Sum(m: nat, n: nat)
    ensures Pow10(m + n) == Pow10(m) * Pow10(n)
  {
    if n > 0 {
      Pow10Sum(m, n - 1);
      SwapFactors(Pow10(m), 10, Pow10(n - 1));
    }
  }

  lemma ValueStep(s: string, c: char)
    requires AllDigits(s) && IsDigit(c)
    ensures Value(s + [c]) == 10 * Value(s) + DigitOf(c)
  {
    assert (s + [c])[..|s|] == s;
  }

  lemma {:induction false} ValueOfDigits(n: nat)
    ensures Value(Digits(n)) == n
  {
    if n < 10 {
      assert Digits(n) == "" + [DigitChar(n)];
      ValueStep("", DigitChar(n));
    } else {
      ValueOfDigits(n / 10);
      ValueStep(Digits(n / 10), DigitChar(n % 10));
    }
  }

  lemma {:induction false} ValueConcat(a: string, b: string)
    requires AllDigits(a) && AllDigits(b)
    ensures AllDigits(a + b) && Value(a + b) == Value(a) * Pow10(|b|) + Value(b)
    decreases |b|
  {
    if b == "" {
      assert a + b == a;
    } else {
      var init, last := b[..|b| - 1], b[|b| - 1];
      assert a + b == (a + init) + [last];
      ValueConcat(a, init);
      ValueStep(a + init, last);
      SwapFactors(Value(a), 10, Pow10(|init|));
    }
  }

  lemma {:induction false} ValueZeros(n: nat)
    ensures Value(Zeros(n)) == 0
  {
    if n > 0 {
      assert Zeros(n) == Zeros(n - 1) + ['0'];
      ValueZeros(n - 1);
      ValueStep(Zeros(n - 1), '0');
    }
  }

  lemma {:induction false} ValueBound(s: string)
    requires AllDigits(s)
    ensures Value(s) < Pow10(|s|)
    decreases |s|
  {
    if s != "" {
      ValueBound(s[..|s| - 1]);
    }
  }

  lemma ValueHead(s: string)
    requires AllDigits(s) && s != ""
    ensures AllDigits(s[1..]) && Value(s) == DigitOf(s[0]) * Pow10(|s| - 1) + Value(s[1..])
  {
    var head, tail := [s[0]], s[1..];
    assert s == head + tail;
    ValueOne(s[0]);
    ValueConcat(head, tail);
  }

  lemma ValueOne(c: char)
    requires IsDigit(c)
    ensures Value([c]) == DigitOf(c)
  {
    assert [c] == "" + [c];
    ValueStep("", c);
  }

  lemma PadStartValue(s: string, width: int)
    requires AllDigits(s)
    ensures AllDigits(PadStart(s, width)) && Value(PadStart(s, width)) == Value(s)
    ensures |PadStart(s, width)| == if |s| >= width then |s| else width
  {
    if |s| < width {
      ValueZeros(width - |s|);
      ValueConcat(Zeros(width - |s|), s);
    }
  }

  lemma PadEndValue(s: string, width: int)
    requires AllDigits(s)
    ensures AllDigits(PadEnd(s, width))
    ensures |s| < width ==> Value(PadEnd(s, width)) == Value(s) * Pow10(width - |s|)
    ensures |PadEnd(s, width)| == if |s| >= width then |s| else width
  {
    if |s| < width {
      ValueZeros(width - |s|);
      ValueConcat(s, Zeros(width - |s|));
    }
  }

  /** A number has at most w digits exactly when it is below the w-th power of ten. */
  lemma {:induction false} DigitsLength(n: nat, w: nat)
    requires w > 0
    ensures |Digits(n)| <= w <==> n < Pow10(w)
    decreases n
  {
    assert Pow10(1) == 10;
    if n < 10 {
      Pow10Mono(1, w);
    } else if w == 1 {
    } else {
      DigitsLength(n / 10, w - 1);
    }
  }

  // ---- order ----

  lemma HeadDecides(a: string, b: string)
    requires AllDigits(a) && AllDigits(b) && |a| == |b| && a != "" && a[0] < b[0]
    ensures Value(a) < Value(b)
  {
    ValueHead(a);
    ValueHead(b);
    ValueBound(a[1..]);
    var p := Pow10(|a| - 1);
    MulSucc(DigitOf(a[0]), p);
    MulMonotone(DigitOf(a[0]) + 1, DigitOf(b[0]), p);
  }

  /** Digit strings of one length compare as text the way their values do. */
  lemma {:induction false} TextOrder(a: string, b: string)
    requires AllDigits(a) && AllDigits(b) && |a| == |b|
    ensures TextLess(a, b) <==> Value(a) < Value(b)
    ensures Value(a) == Value(b) ==> a == b
    decreases |a|
  {
    if a == "" {
    } else if a[0] < b[0] {
      HeadDecides(a, b);
    } else if b[0] < a[0] {
      HeadDecides(b, a);
    } else {
      ValueHead(a);
      ValueHead(b);
      TextOrder(a[1..], b[1..]);
      assert a == [a[0]] + a[1..] && b == [b[0]] + b[1..];
    }
  }

  lemma {:induction false} TextLessPrefix(p: string, a: string, b: string)
    ensures TextLess(p + a, p + b) <==> TextLess(a, b)
    decreases |p|
  {
    if p == "" {
      assert p + a == a && p + b == b;
    } else {
      TextLessPrefix(p[1..], a, b);
      assert (p + a)[1..] == p[1..] + a && (p + b)[1..] == p[1..] + b;
    }
  }

  lemma {:induction false} TextTotal(a: string, b: string)
    ensures TextLess(a, b) || a == b || TextLess(b, a)
    ensures !(TextLess(a, b) && TextLess(b, a))
    decreases |a|
  {
    if a == "" || b == "" {
    } else {
      TextTotal(a[1..], b[1..]);
      assert a == [a[0]] + a[1..] && b == [b[0]] + b[1..];
    }
  }

  lemma {:induction false} TextLessTransitive(a: string, b: string, c: string)
    requires TextLess(a, b) && TextLess(b, c)
    ensures TextLess(a, c)
    decreases |a|
  {
    if a != "" && a[0] == b[0] && b[0] == c[0] {
      TextLessTransitive(a[1..], b[1..], c[1..]);
    }
  }
}
