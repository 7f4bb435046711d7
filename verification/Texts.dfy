/** White space and trimming as the language of the program defines them. */
module Texts {
  /** White space and line ends of ECMAScript, which its \s class, trim and parseInt share. */
  predicate IsBlank(c: char) {
    || c == ' ' || '\t' <= c <= '\r'
    || c == '\U{00A0}' || c == '\U{1680}' || '\U{2000}' <= c <= '\U{200A}'
    || c == '\U{2028}' || c == '\U{2029}' || c == '\U{202F}' || c == '\U{205F}' || c == '\U{3000}' || c == '\U{FEFF}'
  }

  /** The same by code point. */
  lemma BlankCharacters(c: char)
    ensures var point := c as int;
            IsBlank(c) <==>
              || 9 <= point <= 13 || point in {32, 160, 5760, 8232, 8233, 8239, 8287, 12288, 65279}
              || 8192 <= point <= 8202
  {
  }

  function TrimStart(s: string): string {
    if s != "" && IsBlank(s[0]) then TrimStart(s[1..]) else s
  }

  function TrimEnd(s: string): string {
    if s != "" && IsBlank(s[|s| - 1]) then TrimEnd(s[..|s| - 1]) else s
  }

  function Trim(s: string): string {
    TrimEnd(TrimStart(s))
  }

  /** A text that neither begins nor ends with white space is left as it is. */
  lemma TrimKeeps(s: string)
    requires s != "" && !IsBlank(s[0]) && !IsBlank(s[|s| - 1])
    ensures Trim(s) == s
  {
  }

  /** Of two separators of one text the second is in what follows the first, and the first before the second. */
  lemma TwoSeparators(a: string, p: string, b: string, q: string, separator: char)
    requires a + [separator] + p == b + [separator] + q && |a| < |b|
    ensures separator in b && separator in p
  {
    var s, r := a + [separator] + p, b + [separator] + q;
    assert s[|a|] == separator && r[|a|] == b[|a|];
    assert r[|b|] == separator && s[|b|] == p[|b| - |a| - 1];
  }

  /** A text is determined up to a separator, if it is the first or the last one of the whole. */
  lemma SplitAt(a: string, p: string, b: string, q: string, separator: char)
    requires a + [separator] + p == b + [separator] + q
    requires (separator !in a && separator !in b) || (separator !in p && separator !in q)
    ensures a == b && p == q
  {
    var s, r := a + [separator] + p, b + [separator] + q;
    if |a| < |b| {
      TwoSeparators(a, p, b, q, separator);
    } else if |b| < |a| {
      TwoSeparators(b, q, a, p, separator);
    } else {
      assert a == s[..|a|] && b == r[..|b|] && p == s[|a| + 1..] && q == r[|b| + 1..];
    }
  }
}
