/** What shows: exactly which texts of a statement reach the output of the redaction. */
module SqlExposure {
  import opened Results
  import opened SqlBlocks
  import opened SqlRedaction
  import opened Texts

  // ---- literals ----

  function Quotes(s: string): nat {
    if s == "" then 0 else (if s[0] == QUOTE then 1 else 0) + Quotes(s[1..])
  }

  /** The number of quotes is odd. */
  predicate OddQuotes(s: string) {
    s != "" && (s[0] == QUOTE) != OddQuotes(s[1..])
  }

  lemma {:induction false} OddIsOdd(s: string)
    ensures OddQuotes(s) <==> Quotes(s) % 2 == 1
    decreases |s|
  {
    if s != "" {
      OddIsOdd(s[1..]);
    }
  }

  /** An odd number of quotes before, and one after. */
  predicate InLiteral(before: string, after: string) {
    OddQuotes(before) && !QuoteFree(after)
  }

  /** The first quote of the text that is not one of a pair. */
  function Single(u: string): (k: Option<nat>)
    ensures k.Some? ==> k.value < |u|
  {
    if u == "" then None
    else if u[0] != QUOTE then
      var rest := Single(u[1..]);
      if rest.Some? then Some(rest.value + 1) else None
    else if |u| > 1 && u[1] == QUOTE then
      var rest := Single(u[2..]);
      if rest.Some? then Some(rest.value + 2) else None
    else Some(0)
  }

  /** Quotes are paired up to the single one, and altogether if there is none. */
  lemma {:induction false} SingleParity(u: string)
    ensures Single(u).Some? ==>
      u[Single(u).value] == QUOTE && (OddQuotes(u) <==> !OddQuotes(u[Single(u).value + 1..]))
    ensures Single(u).None? ==> !OddQuotes(u)
    decreases |u|
  {
    if u != "" {
      if u[0] != QUOTE {
        SingleParity(u[1..]);
      } else if |u| > 1 && u[1] == QUOTE {
        OddPair(u);
        SingleParity(u[2..]);
      }
    }
  }

  lemma OddPair(u: string)
    requires |u| > 1 && u[0] == QUOTE && u[1] == QUOTE
    ensures OddQuotes(u) <==> OddQuotes(u[2..])
  {
    assert u[1..][1..] == u[2..] && u[1..][0] == QUOTE;
  }

  /** A text without quotes is not where a literal closes. */
  lemma {:induction false} CloseBehind(x: string, v: string)
    requires QuoteFree(x)
    ensures CloseAt(x + v) == if CloseAt(v).Some? then Some(|x| + CloseAt(v).value) else None
    decreases |x|
  {
    if x == "" {
      assert x + v == v;
    } else {
      assert (x + v)[1..] == x[1..] + v;
      CloseBehind(x[1..], v);
    }
  }

  lemma {:induction false} ClosesIfQuoted(v: string)
    ensures CloseAt(v).Some? <==> !QuoteFree(v)
    decreases |v|
  {
    if v != "" && v[0] != QUOTE {
      ClosesIfQuoted(v[1..]);
      assert v == [v[0]] + v[1..];
    }
  }

  lemma {:induction false} CloseAtSingle(u: string, x: string, v: string)
    requires x != "" && QuoteFree(x) && Single(u).Some?
    ensures CloseAt(u + (x + v)) == Single(u) == CloseAt(u)
    decreases |u|
  {
    var s := u + (x + v);
    if u[0] != QUOTE {
      assert s[1..] == u[1..] + (x + v);
      CloseAtSingle(u[1..], x, v);
    } else if |u| > 1 && u[1] == QUOTE {
      assert s[2..] == u[2..] + (x + v);
      CloseAtSingle(u[2..], x, v);
    } else if |u| == 1 {
      assert s[1] == x[0];
    }
  }

  /** If all quotes before a text are paired, the literal closes where it does behind the text, if anywhere. */
  lemma {:induction false} CloseAfterPairs(u: string, x: string, v: string)
    requires x != "" && QuoteFree(x) && Single(u).None?
    ensures CloseAt(v).Some? ==> CloseAt(u + (x + v)) == Some(|u| + |x| + CloseAt(v).value)
    ensures CloseAt(v).None? ==> CloseAt(u + (x + v)) == CloseAt(u)
    decreases |u|
  {
    var s := u + (x + v);
    if u == "" {
      assert s == x + v;
      CloseBehind(x, v);
    } else if u[0] != QUOTE {
      assert s[1..] == u[1..] + (x + v);
      CloseAfterPairs(u[1..], x, v);
    } else {
      assert s[2..] == u[2..] + (x + v);
      CloseAfterPairs(u[2..], x, v);
    }
  }

  /** The first character of a statement is not matched. */
  lemma FirstStays(before: string, u: string, rest: string)
    requires before != "" && u == before[1..] && (before[0] != QUOTE || CloseAt(u + rest).None?)
    ensures ReplaceStrings(before + rest) == [before[0]] + ReplaceStrings(u + rest)
  {
    assert (before + rest)[1..] == u + rest;
  }

  lemma DropFirst(a: string, b: string, n: nat)
    requires n <= |a|
    ensures (a + b)[n..] == a[n..] + b
  {
  }

  lemma Matched(s: string, inside: string, k: nat, left: string)
    requires s != "" && s[0] == QUOTE && inside == s[1..] && CloseAt(inside) == Some(k) && left == s[k + 2..]
    ensures ReplaceStrings(s) == PLACEHOLDER + ReplaceStrings(left)
  {
  }

  /** A literal that opens at the first character closes before the rest. */
  lemma ClosesBeforeRest(before: string, u: string, k: nat, v: string, rest: string)
    requires before != "" && u == before[1..] && before[0] == QUOTE
    requires k < |u| && CloseAt(u + rest) == Some(k) && v == u[k + 1..]
    ensures ReplaceStrings(before + rest) == PLACEHOLDER + ReplaceStrings(v + rest)
  {
    DropFirst(before, rest, 1);
    DropFirst(before, rest, k + 2);
    assert before[k + 2..] == v;
    Matched(before + rest, u + rest, k, v + rest);
  }

  /** A literal that opens at the first character runs on behind the text x. */
  lemma ClosesBehind(before: string, u: string, x: string, after: string, j: nat)
    requires before != "" && u == before[1..] && before[0] == QUOTE
    requires j < |after| && CloseAt(u + (x + after)) == Some(|u| + |x| + j)
    ensures ReplaceStrings(before + (x + after)) == PLACEHOLDER + ReplaceStrings(after[j + 1..])
  {
    var (s, k) := (before + (x + after), |u| + |x| + j);
    DropFirst(before, x + after, 1);
    assert s[k + 2..] == after[j + 1..];
    Matched(s, u + (x + after), k, after[j + 1..]);
  }

  lemma HidesBehind(before: string, u: string, x: string, after: string)
    requires before != "" && u == before[1..] && before[0] == QUOTE && Single(u).None?
    requires x != "" && QuoteFree(x) && !QuoteFree(after)
    ensures CloseAt(after).Some?
    ensures ReplaceStrings(before + (x + after)) == PLACEHOLDER + ReplaceStrings(after[CloseAt(after).value + 1..])
  {
    ClosesIfQuoted(after);
    CloseAfterPairs(u, x, after);
    ClosesBehind(before, u, x, after, CloseAt(after).value);
  }

  lemma ClosesInBefore(before: string, u: string, x: string, after: string, k: nat, v: string)
    requires before != "" && u == before[1..] && before[0] == QUOTE && Single(u) == Some(k) && v == u[k + 1..]
    requires x != "" && QuoteFree(x)
    ensures ReplaceStrings(before + (x + after)) == PLACEHOLDER + ReplaceStrings(v + (x + after))
  {
    CloseAtSingle(u, x, after);
    ClosesBeforeRest(before, u, k, v, x + after);
  }

  /** A text between an odd number of quotes and another quote leaves nothing. */
  lemma {:induction false} LiteralHides(before: string, x: string, y: string, after: string)
    requires InLiteral(before, after)
    requires x != "" && QuoteFree(x) && y != "" && QuoteFree(y)
    ensures ReplaceStrings(before + (x + after)) == ReplaceStrings(before + (y + after))
    decreases |before|
  {
    var u := before[1..];
    SingleParity(u);
    if before[0] != QUOTE {
      FirstStays(before, u, x + after);
      FirstStays(before, u, y + after);
      LiteralHides(u, x, y, after);
    } else if Single(u).Some? {
      var k := Single(u).value;
      var v := u[k + 1..];
      ClosesInBefore(before, u, x, after, k, v);
      ClosesInBefore(before, u, y, after, k, v);
      LiteralHides(v, x, y, after);
    } else {
      HidesBehind(before, u, x, after);
      HidesBehind(before, u, y, after);
    }
  }

  /** Outside a literal, a literal that opens before the text closes where it would without the text. */
  lemma CloseUnmoved(u: string, x: string, after: string)
    requires x != "" && QuoteFree(x) && (Single(u).Some? || QuoteFree(after))
    ensures CloseAt(u + (x + after)) == CloseAt(u)
  {
    ClosesIfQuoted(after);
    if Single(u).Some? {
      CloseAtSingle(u, x, after);
    } else {
      CloseAfterPairs(u, x, after);
    }
  }

  lemma StaysBehind(head: string, u: string, x: string, after: string)
    requires ReplaceStrings(u + (x + after)) == ReplaceStrings(u) + (x + ReplaceStrings(after))
    ensures head + ReplaceStrings(u + (x + after)) == (head + ReplaceStrings(u)) + (x + ReplaceStrings(after))
  {
  }

  lemma AloneClosed(before: string, u: string, k: nat, v: string)
    requires before != "" && u == before[1..] && before[0] == QUOTE && CloseAt(u) == Some(k) && v == u[k + 1..]
    ensures ReplaceStrings(before) == PLACEHOLDER + ReplaceStrings(v)
  {
    assert before[k + 2..] == v;
  }

  /** What is left of the parity once a literal has closed. */
  lemma StillOutside(before: string, u: string, k: nat, v: string, after: string)
    requires before != "" && u == before[1..] && before[0] == QUOTE && CloseAt(u) == Some(k) && v == u[k + 1..]
    requires !InLiteral(before, after) && (Single(u) == Some(k) || QuoteFree(after))
    ensures !InLiteral(v, after)
  {
    SingleParity(u);
  }

  /** Any other text stays, between what is left of the statement before and after it. */
  lemma {:induction false} LiteralsPass(before: string, x: string, after: string)
    requires !InLiteral(before, after) && x != "" && QuoteFree(x)
    ensures ReplaceStrings(before + (x + after)) == ReplaceStrings(before) + (x + ReplaceStrings(after))
    decreases |before|, 1
  {
    if before == "" {
      assert before + (x + after) == x + after;
      TextPasses(x, after);
    } else {
      var u := before[1..];
        SingleParity(u);
      if before[0] != QUOTE {
        LiteralsPass(u, x, after);
        FirstStays(before, u, x + after);
        StaysBehind([before[0]], u, x, after);
      } else {
        CloseUnmoved(u, x, after);
        PassesQuote(before, u, x, after);
      }
    }
  }

  lemma {:induction false} PassesQuote(before: string, u: string, x: string, after: string)
    requires !InLiteral(before, after) && x != "" && QuoteFree(x)
    requires before != "" && u == before[1..] && before[0] == QUOTE && CloseAt(u + (x + after)) == CloseAt(u)
    ensures ReplaceStrings(before + (x + after)) == ReplaceStrings(before) + (x + ReplaceStrings(after))
    decreases |before|, 0
  {
    SingleParity(u);
    if CloseAt(u).Some? {
      var k := CloseAt(u).value;
      var v := u[k + 1..];
      if Single(u).Some? {
        CloseAtSingle(u, x, after);
      }
      StillOutside(before, u, k, v, after);
      LiteralsPass(v, x, after);
      ClosesBeforeRest(before, u, k, v, x + after);
      AloneClosed(before, u, k, v);
      StaysBehind(PLACEHOLDER, v, x, after);
    } else {
      ClosesIfQuoted(u);
      FirstStays(before, u, x + after);
      LiteralsPass(u, x, after);
      StaysBehind([before[0]], u, x, after);
    }
  }

  lemma {:induction false} OddConcat(a: string, b: string)
    ensures OddQuotes(a + b) <==> OddQuotes(a) != OddQuotes(b)
    decreases |a|
  {
    if a == "" {
      assert a + b == b;
    } else {
      assert (a + b)[1..] == a[1..] + b;
      OddConcat(a[1..], b);
    }
  }

  /** Texts at one place are told apart by the result. */
  lemma AroundTells(p: string, a: string, b: string, t: string)
    ensures p + (a + t) == p + (b + t) <==> a == b
  {
    var (s, r) := (p + (a + t), p + (b + t));
    assert |s| - |p| - |t| == |a| && |r| - |p| - |t| == |b|;
    assert a == s[|p|..|s| - |t|] && b == r[|p|..|r| - |t|];
  }

  /** Which of two contents a literal has is told by the result exactly if an odd number of quotes is before it. */
  lemma LiteralHiddenExactly(before: string, a: string, b: string, after: string)
    requires a != "" && b != "" && QuoteFree(a) && QuoteFree(b) && a != b
    ensures ReplaceStrings(before + (Quoted(a) + after)) == ReplaceStrings(before + (Quoted(b) + after)) <==>
            Quotes(before) % 2 == 0
  {
    var (p, t) := (before + [QUOTE], [QUOTE] + after);
    OddIsOdd(before);
    OddConcat(before, [QUOTE]);
    assert [QUOTE][1..] == "" && t[0] == QUOTE;
    QuotedBetween(before, a, after);
    QuotedBetween(before, b, after);
    if InLiteral(p, t) {
      LiteralHides(p, a, b, t);
    } else {
      LiteralsPass(p, a, t);
      LiteralsPass(p, b, t);
      AroundTells(ReplaceStrings(p), a, b, ReplaceStrings(t));
    }
  }

  lemma QuotedBetween(before: string, content: string, after: string)
    requires QuoteFree(content)
    ensures before + (Quoted(content) + after) == (before + [QUOTE]) + (content + ([QUOTE] + after))
  {
    QuotedPlain(content);
  }

  // ---- blocks ----

  predicate BreaksWords(x: string) {
    exists i :: 0 <= i < |x| && !IsWord(x[i])
  }

  predicate EndsInMark(p: string) {
    p != "" && (IsWord(p[|p| - 1]) || p[|p| - 1] == '$')
  }

  /** No mark that begins in p can go on into x: x has no dollar sign, and it or the end of p breaks words. */
  predicate Apart(p: string, x: string) {
    x != "" && DollarFree(x) && (BreaksWords(x) || !EndsInMark(p))
  }

  lemma ApartSuffix(p: string, x: string, q: string, n: nat)
    requires Apart(p, x) && n <= |p| && q == p[n..]
    ensures Apart(q, x)
  {
    assert q != "" ==> q[|q| - 1] == p[|p| - 1];
  }

  /** A block that opens in the text p is still open at its end, and closes in t. */
  predicate InBlock(p: string, t: string)
    decreases |p|
  {
    if p == "" then false
    else
      var tag := OpeningTag(p);
      if tag.None? then InBlock(p[1..], t)
      else
        var inside := p[|tag.value| + 2..];
        var rest := AfterClosing(inside, tag.value);
        if rest.Some? then InBlock(rest.value, t)
        else AfterClosing(t, tag.value).Some? || InBlock(p[1..], t)
  }

  lemma {:induction false} WordInText(x: string, t: string)
    requires BreaksWords(x)
    ensures WordLength(x) < |x| && WordLength(x + t) == WordLength(x) && !IsWord(x[WordLength(x)])
    decreases |x|
  {
    if IsWord(x[0]) {
      var i :| 0 <= i < |x| && !IsWord(x[i]);
      assert x[1..][i - 1] == x[i];
      assert (x + t)[1..] == x[1..] + t;
      WordInText(x[1..], t);
    }
  }

  lemma {:induction false} WordUpToText(w: string, x: string, t: string)
    requires BreaksWords(x) || WordLength(w) < |w|
    ensures WordLength(w + (x + t)) == if WordLength(w) < |w| then WordLength(w) else |w| + WordLength(x)
    decreases |w|
  {
    if w == "" {
      assert w + (x + t) == x + t;
      WordInText(x, t);
    } else if IsWord(w[0]) {
      assert (w + (x + t))[1..] == w[1..] + (x + t);
      WordUpToText(w[1..], x, t);
    }
  }

  lemma WordStops(w: string)
    requires w != "" && !IsWord(w[|w| - 1])
    ensures WordLength(w) < |w|
  {
    WordChars(w);
  }

  /** Such a text does not take part in an opening mark. */
  lemma OpeningUnmoved(p: string, x: string, t: string)
    requires p != "" && Apart(p, x)
    ensures OpeningTag(p + (x + t)) == OpeningTag(p)
  {
    if p[0] == '$' {
      var w := p[1..];
      assert (p + (x + t))[1..] == w + (x + t);
      if w != "" && !EndsInMark(p) {
        WordStops(w);
      }
      WordUpToText(w, x, t);
      if BreaksWords(x) {
        WordInText(x, t);
      }
      SameOpening(p, w, x, t);
    }
  }

  lemma SameOpening(p: string, w: string, x: string, t: string)
    requires p != "" && p[0] == '$' && w == p[1..] && x != "" && DollarFree(x)
    requires WordLength(w) == |w| ==> WordLength(x) < |x|
    requires WordLength(w + (x + t)) == if WordLength(w) < |w| then WordLength(w) else |w| + WordLength(x)
    ensures OpeningTag(p + (x + t)) == OpeningTag(p)
  {
    var s := p + (x + t);
    assert s[1..] == w + (x + t);
    if w == "" {
      assert s[1] == x[0];
    } else if WordLength(w) == |w| {
      assert s[|w| + WordLength(x) + 1] == x[WordLength(x)];
    } else {
      assert s[WordLength(w) + 1] == p[WordLength(w) + 1];
      assert s[1..WordLength(w) + 1] == p[1..WordLength(w) + 1];
    }
  }

  /** Nor in a closing one. */
  lemma MarkUnmoved(q: string, x: string, t: string, tag: string)
    requires IsTag(tag) && Apart(q, x)
    ensures Mark(tag) <= q + (x + t) <==> Mark(tag) <= q
  {
    var (m, s) := (Mark(tag), q + (x + t));
    if |q| < |m| <= |s| {
      if BreaksWords(x) {
        var i :| 0 <= i < |x| && !IsWord(x[i]);
        Mismatch(m, tag, s, if |q| + i < |m| then |q| + i else |m| - 1);
      } else {
        Mismatch(m, tag, s, if q == "" then 0 else |q| - 1);
      }
    }
  }

  /** A mark has word characters between two dollar signs. */
  lemma Mismatch(m: string, tag: string, s: string, j: nat)
    requires IsTag(tag) && m == Mark(tag) && j < |m| <= |s|
    requires s[j] != '$' && (0 < j < |m| - 1 ==> !IsWord(s[j]))
    ensures !(m <= s)
  {
    assert m[j] != s[j];
  }

  lemma {:induction false} NoneClosesIn(x: string, t: string, tag: string)
    requires DollarFree(x)
    ensures AfterClosing(x + t, tag) == AfterClosing(t, tag)
    decreases |x|
  {
    if x == "" {
      assert x + t == t;
    } else {
      assert (x + t)[0] == x[0] != '$' == Mark(tag)[0];
      assert (x + t)[1..] == x[1..] + t;
      NoneClosesIn(x[1..], t, tag);
    }
  }

  /** A block closes where it would without the text, or behind it. */
  lemma {:induction false} ClosingUnmoved(q: string, x: string, t: string, tag: string)
    requires IsTag(tag) && Apart(q, x)
    ensures AfterClosing(q + (x + t), tag) ==
            if AfterClosing(q, tag).Some? then Some(AfterClosing(q, tag).value + (x + t)) else AfterClosing(t, tag)
    decreases |q|
  {
    var s := q + (x + t);
    if q == "" {
      assert s == x + t;
      NoneClosesIn(x, t, tag);
    } else {
      MarkUnmoved(q, x, t, tag);
      MarkUnmoved(q, x, t, "");
      assert Mark("") == "$$";
      if Mark(tag) <= q {
        DropFirst(q, x + t, |tag| + 2);
      } else if "$$" <= q {
        DropFirst(q, x + t, 2);
      } else {
        DropFirst(q, x + t, 1);
        ApartSuffix(q, x, q[1..], 1);
        ClosingUnmoved(q[1..], x, t, tag);
      }
    }
  }

  lemma {:induction false} WordChars(s: string)
    ensures forall i :: 0 <= i < WordLength(s) ==> IsWord(s[i])
    decreases |s|
  {
    if s != "" && IsWord(s[0]) {
      WordChars(s[1..]);
      assert forall i :: 1 <= i < WordLength(s) ==> s[i] == s[1..][i - 1];
    }
  }

  lemma OpeningIsTag(s: string)
    ensures OpeningTag(s).Some? ==> IsTag(OpeningTag(s).value)
  {
    if OpeningTag(s).Some? && OpeningTag(s).value != "" {
      WordChars(s[1..]);
    }
  }

  lemma {:induction false} RestIsSuffix(q: string, tag: string)
    ensures AfterClosing(q, tag).Some? ==>
      AfterClosing(q, tag).value == q[|q| - |AfterClosing(q, tag).value|..]
    decreases |q|
  {
    if q != "" && !(Mark(tag) <= q) && !("$$" <= q) {
      RestIsSuffix(q[1..], tag);
    }
  }

  lemma ApartRest(p: string, x: string, tag: string, rest: string)
    requires Apart(p, x) && OpeningTag(p) == Some(tag) && AfterClosing(p[|tag| + 2..], tag) == Some(rest)
    ensures Apart(rest, x)
  {
    var inside := p[|tag| + 2..];
    RestIsSuffix(inside, tag);
    ApartSuffix(p, x, inside, |tag| + 2);
    ApartSuffix(inside, x, rest, |inside| - |rest|);
  }

  lemma ClosesIn(p: string, x: string, t: string, tag: string, inside: string)
    requires Apart(p, x) && OpeningTag(p) == Some(tag) && inside == p[|tag| + 2..]
    ensures OpeningTag(p + (x + t)) == Some(tag) && (p + (x + t))[|tag| + 2..] == inside + (x + t)
    ensures AfterClosing(inside + (x + t), tag) ==
            if AfterClosing(inside, tag).Some? then Some(AfterClosing(inside, tag).value + (x + t))
            else AfterClosing(t, tag)
  {
    OpeningUnmoved(p, x, t);
    OpeningIsTag(p);
    DropFirst(p, x + t, |tag| + 2);
    ApartSuffix(p, x, inside, |tag| + 2);
    ClosingUnmoved(inside, x, t, tag);
  }

  lemma BlockBefore(p: string, x: string, t: string, tag: string, inside: string, rest: string)
    requires Apart(p, x) && OpeningTag(p) == Some(tag) && inside == p[|tag| + 2..]
    requires AfterClosing(inside, tag) == Some(rest)
    ensures ReplaceBlocks(p + (x + t)) == "$?$" + ReplaceBlocks(rest + (x + t))
  {
    ClosesIn(p, x, t, tag, inside);
    BlockStep(p + (x + t), tag, inside + (x + t), rest + (x + t));
  }

  lemma BlockAround(p: string, x: string, t: string, tag: string, inside: string, rest: string)
    requires Apart(p, x) && OpeningTag(p) == Some(tag) && inside == p[|tag| + 2..]
    requires AfterClosing(inside, tag).None? && AfterClosing(t, tag) == Some(rest)
    ensures ReplaceBlocks(p + (x + t)) == "$?$" + ReplaceBlocks(rest)
  {
    ClosesIn(p, x, t, tag, inside);
    BlockStep(p + (x + t), tag, inside + (x + t), rest);
  }

  lemma CharacterStays(s: string, u: string)
    requires s != "" && u == s[1..]
    requires OpeningTag(s).Some? ==> AfterClosing(s[|OpeningTag(s).value| + 2..], OpeningTag(s).value).None?
    ensures ReplaceBlocks(s) == [s[0]] + ReplaceBlocks(u)
  {
  }

  /** No block opens at the first character, or none that closes. */
  predicate NoBlock(p: string, t: string) {
    OpeningTag(p).Some? ==>
      AfterClosing(p[|OpeningTag(p).value| + 2..], OpeningTag(p).value).None? &&
      AfterClosing(t, OpeningTag(p).value).None?
  }

  lemma NoBlockHere(p: string, x: string, t: string, u: string)
    requires Apart(p, x) && p != "" && u == p[1..] && NoBlock(p, t)
    ensures ReplaceBlocks(p + (x + t)) == [p[0]] + ReplaceBlocks(u + (x + t))
  {
    var tag := OpeningTag(p);
    OpeningUnmoved(p, x, t);
    if tag.Some? {
      ClosesIn(p, x, t, tag.value, p[|tag.value| + 2..]);
    }
    DropFirst(p, x + t, 1);
    CharacterStays(p + (x + t), u + (x + t));
  }

  /** A text inside a block leaves nothing. */
  lemma {:induction false} BlockHides(p: string, x: string, y: string, t: string)
    requires InBlock(p, t) && Apart(p, x) && Apart(p, y)
    ensures ReplaceBlocks(p + (x + t)) == ReplaceBlocks(p + (y + t))
    decreases |p|
  {
    if NoBlock(p, t) {
      NoBlockHere(p, x, t, p[1..]);
      NoBlockHere(p, y, t, p[1..]);
      ApartSuffix(p, x, p[1..], 1);
      ApartSuffix(p, y, p[1..], 1);
      BlockHides(p[1..], x, y, t);
    } else {
      var tag := OpeningTag(p).value;
      var inside := p[|tag| + 2..];
      var rest := AfterClosing(inside, tag);
      if rest.Some? {
        BlockBefore(p, x, t, tag, inside, rest.value);
        BlockBefore(p, y, t, tag, inside, rest.value);
        ApartRest(p, x, tag, rest.value);
        ApartRest(p, y, tag, rest.value);
        BlockHides(rest.value, x, y, t);
      } else {
        BlockAround(p, x, t, tag, inside, AfterClosing(t, tag).value);
        BlockAround(p, y, t, tag, inside, AfterClosing(t, tag).value);
      }
    }
  }

  lemma BehindHead(head: string, a: string, b: string, c: string)
    ensures head + (a + (b + c)) == (head + a) + (b + c)
  {
  }

  /** Any other text stays, between what is left of the statement before and after it. */
  lemma {:induction false} BlocksPass(p: string, x: string, t: string)
    requires !InBlock(p, t) && Apart(p, x)
    ensures ReplaceBlocks(p + (x + t)) == ReplaceBlocks(p) + (x + ReplaceBlocks(t))
    decreases |p|
  {
    if p == "" {
      assert p + (x + t) == x + t;
      TextStays(x, t);
    } else if NoBlock(p, t) {
      NoBlockHere(p, x, t, p[1..]);
      CharacterStays(p, p[1..]);
      ApartSuffix(p, x, p[1..], 1);
      BlocksPass(p[1..], x, t);
      BehindHead([p[0]], ReplaceBlocks(p[1..]), x, ReplaceBlocks(t));
    } else {
      var tag := OpeningTag(p).value;
      var inside := p[|tag| + 2..];
      var rest := AfterClosing(inside, tag).value;
      BlockBefore(p, x, t, tag, inside, rest);
      BlockStep(p, tag, inside, rest);
      ApartRest(p, x, tag, rest);
      BlocksPass(rest, x, t);
      BehindHead("$?$", ReplaceBlocks(rest), x, ReplaceBlocks(t));
    }
  }

  lemma {:induction false} TextStays(x: string, t: string)
    requires DollarFree(x)
    ensures ReplaceBlocks(x + t) == x + ReplaceBlocks(t)
    decreases |x|
  {
    if x == "" {
      assert x + t == t;
    } else {
      assert (x + t)[0] == x[0] != '$';
      assert (x + t)[1..] == x[1..] + t;
      TextStays(x[1..], t);
    }
  }

  // ---- white space ----

  lemma {:induction false} SolidStays(x: string, t: string)
    requires BlankFree(x)
    ensures Collapse(x + t) == x + Collapse(t)
    decreases |x|
  {
    if x == "" {
      assert x + t == t;
    } else {
      assert (x + t)[1..] == x[1..] + t;
      SolidStays(x[1..], t);
    }
  }

  lemma {:induction false} CollapsePasses(p: string, x: string, t: string)
    requires BlankFree(x) && x != ""
    ensures Collapse(p + (x + t)) == Collapse(p) + (x + Collapse(t))
    decreases |p|
  {
    if p == "" {
      assert p + (x + t) == x + t;
      SolidStays(x, t);
    } else {
      assert (p + (x + t))[1..] == p[1..] + (x + t);
      assert |p| == 1 ==> (p + (x + t))[1] == x[0];
      CollapsePasses(p[1..], x, t);
    }
  }

  lemma {:induction false} TrimStartPasses(p: string, x: string, t: string)
    requires BlankFree(x) && x != ""
    ensures TrimStart(p + (x + t)) == TrimStart(p) + (x + t)
    decreases |p|
  {
    if p == "" {
      assert p + (x + t) == x + t;
    } else if IsBlank(p[0]) {
      assert (p + (x + t))[1..] == p[1..] + (x + t);
      TrimStartPasses(p[1..], x, t);
    }
  }

  lemma {:induction false} TrimEndPasses(p: string, x: string, t: string)
    requires BlankFree(x) && x != ""
    ensures TrimEnd(p + (x + t)) == p + (x + TrimEnd(t))
    decreases |t|
  {
    var s := p + (x + t);
    if t == "" {
      assert s[|s| - 1] == x[|x| - 1];
    } else if IsBlank(t[|t| - 1]) {
      assert s[..|s| - 1] == p + (x + t[..|t| - 1]);
      TrimEndPasses(p, x, t[..|t| - 1]);
    }
  }

  // ---- whole statements ----

  /** What the redaction makes of a statement before it cuts it. */
  function Flattened(statement: string): string {
    Trim(Collapse(ReplaceBlocks(ReplaceStrings(statement))))
  }

  /** What stands between the two parts of a statement is in a literal, or in a block of what is then left. */
  predicate Hidden(before: string, after: string) {
    InLiteral(before, after) || InBlock(ReplaceStrings(before), ReplaceStrings(after))
  }

  /**
   * A text without quotes, dollar signs and white space. If it is a single word, what stands before it must
   * not end in a word or a dollar sign, as together they could be a mark.
   */
  predicate Solid(before: string, x: string) {
    Apart(before, x) && QuoteFree(x) && BlankFree(x)
  }

  lemma {:induction false} EndKept(s: string)
    ensures EndsInMark(ReplaceStrings(s)) ==> EndsInMark(s)
    ensures s != "" ==> ReplaceStrings(s) != ""
    decreases |s|
  {
    if s != "" {
      if s[0] == QUOTE && CloseAt(s[1..]).Some? {
        var k := CloseAt(s[1..]).value;
        var rest := s[k + 2..];
        EndKept(rest);
        EndOf(PLACEHOLDER, ReplaceStrings(rest));
        EndOf(s[..k + 2], rest);
        assert s == s[..k + 2] + rest;
      } else {
        EndKept(s[1..]);
        EndOf([s[0]], ReplaceStrings(s[1..]));
        EndOf([s[0]], s[1..]);
        assert s == [s[0]] + s[1..];
      }
    }
  }

  lemma EndOf(a: string, b: string)
    ensures EndsInMark(a + b) <==> if b == "" then EndsInMark(a) else EndsInMark(b)
  {
    if b == "" {
      assert a + b == a;
    } else {
      assert (a + b)[|a + b| - 1] == b[|b| - 1];
    }
  }

  lemma ApartLeft(before: string, x: string)
    requires Apart(before, x)
    ensures Apart(ReplaceStrings(before), x)
  {
    EndKept(before);
  }

  lemma HiddenIsGone(before: string, x: string, y: string, after: string)
    requires Hidden(before, after) && Solid(before, x) && Solid(before, y)
    ensures RedactSqlLiterals(before + (x + after)) == RedactSqlLiterals(before + (y + after))
    ensures Flattened(before + (x + after)) == Flattened(before + (y + after))
  {
    if InLiteral(before, after) {
      LiteralHides(before, x, y, after);
    } else {
      LiteralsPass(before, x, after);
      LiteralsPass(before, y, after);
      ApartLeft(before, x);
      ApartLeft(before, y);
      BlockHides(ReplaceStrings(before), x, y, ReplaceStrings(after));
    }
  }

  /** What is not hidden is in the output, between what is left of the two parts. */
  lemma OthersShow(before: string, x: string, after: string)
    requires !Hidden(before, after) && Solid(before, x)
    ensures Flattened(before + (x + after)) ==
            TrimStart(Collapse(ReplaceBlocks(ReplaceStrings(before)))) +
            (x + TrimEnd(Collapse(ReplaceBlocks(ReplaceStrings(after)))))
  {
    var (p, t) := (ReplaceStrings(before), ReplaceStrings(after));
    LiteralsPass(before, x, after);
    ApartLeft(before, x);
    BlocksPass(p, x, t);
    CollapsePasses(ReplaceBlocks(p), x, ReplaceBlocks(t));
    TrimStartPasses(Collapse(ReplaceBlocks(p)), x, Collapse(ReplaceBlocks(t)));
    TrimEndPasses(TrimStart(Collapse(ReplaceBlocks(p))), x, Collapse(ReplaceBlocks(t)));
  }

  /**
   * The output tells which of two texts a statement has exactly when the place is not hidden; only what lies
   * behind the length limit does not show even so.
   */
  lemma ShowsExactly(before: string, x: string, y: string, after: string)
    requires Solid(before, x) && Solid(before, y) && x != y
    ensures Flattened(before + (x + after)) == Flattened(before + (y + after)) <==> Hidden(before, after)
    ensures |Flattened(before + (x + after))| <= MAX_STATEMENT_LENGTH &&
            |Flattened(before + (y + after))| <= MAX_STATEMENT_LENGTH ==>
              (RedactSqlLiterals(before + (x + after)) == RedactSqlLiterals(before + (y + after)) <==>
                Hidden(before, after))
  {
    if Hidden(before, after) {
      HiddenIsGone(before, x, y, after);
    } else {
      OthersShow(before, x, after);
      OthersShow(before, y, after);
      AroundTells(TrimStart(Collapse(ReplaceBlocks(ReplaceStrings(before)))), x, y,
        TrimEnd(Collapse(ReplaceBlocks(ReplaceStrings(after)))));
    }
  }

  // ---- ways to show ----

  lemma {:induction false} TextBeforeBlock(text: string, tail: string, t: string)
    requires OpensNothing(text)
    ensures InBlock(text + ("$" + tail), t) <==> InBlock("$" + tail, t)
    decreases |text|
  {
    if text == "" {
      assert text + ("$" + tail) == "$" + tail;
    } else {
      OpensNothingNext(text);
      OpeningSettled(text, tail);
      assert (text + ("$" + tail))[1..] == text[1..] + ("$" + tail);
      TextBeforeBlock(text[1..], tail, t);
    }
  }

  lemma {:induction false} NoOddQuotes(s: string)
    requires QuoteFree(s)
    ensures !OddQuotes(s)
    decreases |s|
  {
    if s != "" {
      NoOddQuotes(s[1..]);
    }
  }

  /**
   * A mark in the text, and two dollar signs as the next: what follows them shows, though they may be meant to
   * open a block. So does the rest of a tagged block with two dollar signs in its body.
   */
  lemma MarkExposes(text: string, tag: string, middle: string, after: string)
    requires OpensNothing(text) && IsTag(tag) && tag != "" && DollarFree(middle)
    requires QuoteFree(text) && QuoteFree(middle)
    ensures !Hidden(text + ("$" + (tag + ("$" + (middle + "$$")))), after)
  {
    var inside := middle + "$$";
    assert inside == middle + ("$$" + "");
    var tail := tag + ("$" + inside);
    NoOddQuotes(text + ("$" + tail));
    QuoteFreeStays(text + ("$" + tail));
    TextBeforeBlock(text, tail, ReplaceStrings(after));
    MarkBegins(tag, inside);
    MarkOpens(tag, inside);
    NoMarkWithin(middle, tag, "");
  }

  /** Behind an odd number of quotes, and no dollar sign, the content of a literal shows. */
  lemma OddQuotesExpose(before: string, after: string)
    requires Quotes(before) % 2 == 1 && DollarFree(before)
    ensures !Hidden(before + [QUOTE], after)
  {
    OddIsOdd(before);
    OddConcat(before, [QUOTE]);
    assert [QUOTE][1..] == "";
    DollarFreeLeft(before + [QUOTE]);
    NoBlockIn(ReplaceStrings(before + [QUOTE]), ReplaceStrings(after));
  }

  lemma {:induction false} DollarFreeLeft(s: string)
    requires DollarFree(s)
    ensures DollarFree(ReplaceStrings(s))
    decreases |s|
  {
    if s != "" {
      if s[0] == QUOTE && CloseAt(s[1..]).Some? {
        DollarFreeLeft(s[CloseAt(s[1..]).value + 2..]);
      } else {
        DollarFreeLeft(s[1..]);
      }
    }
  }

  lemma {:induction false} NoBlockIn(p: string, t: string)
    requires DollarFree(p)
    ensures !InBlock(p, t)
    decreases |p|
  {
    if p != "" {
      NoBlockIn(p[1..], t);
    }
  }

  lemma LonelyShows(before: string, rest: string, secret: string)
    requires QuoteFree(before) && QuoteFree(rest) && QuoteFree(secret) && secret != ""
    ensures ReplaceStrings(before + (Quoted(rest) + (secret + [QUOTE]))) == before + (PLACEHOLDER + (secret + [QUOTE]))
  {
    var tail := secret + [QUOTE];
    TextPasses(before, Quoted(rest) + tail);
    LiteralReplaced(rest, tail);
    TextPasses(secret, [QUOTE]);
    LoneQuoteStays();
  }

  lemma {:induction false} OneSpaceStays(a: string, b: string)
    requires BlankFree(a) && BlankFree(b) && a != "" && b != ""
    ensures Collapse(a + (" " + b)) == a + (" " + b) && Trim(a + (" " + b)) == a + (" " + b)
  {
    var s := a + (" " + b);
    SolidStays(a, " " + b);
    assert (" " + b)[1..] == b && (" " + b)[1] == b[0];
    NoBlanksStay(b);
    assert s[0] == a[0] && s[|s| - 1] == b[|b| - 1];
    TrimKeeps(s);
  }

  /** An apostrophe in the text of a statement without dollar signs; a and b are the words of the output. */
  lemma LonelyRedacted(before: string, rest: string, secret: string, statement: string, left: string,
                       a: string, space: string, b: string)
    requires QuoteFree(before) && QuoteFree(rest) && QuoteFree(secret) && secret != ""
    requires statement == before + (([QUOTE] + rest + [QUOTE]) + (secret + [QUOTE]))
    requires left == before + (PLACEHOLDER + (secret + [QUOTE]))
    requires DollarFree(left) && |left| <= MAX_STATEMENT_LENGTH
    requires left == a + (space + b) && BlankFree(a) && BlankFree(b) && (space == "" || space == " ")
    requires a != "" && b != ""
    ensures RedactSqlLiterals(statement) == left
  {
    QuotedPlain(rest);
    LonelyShows(before, rest, secret);
    DollarFreeStays(left);
    if space == " " {
      OneSpaceStays(a, b);
    } else {
      assert left == a + b && BlankFree(a + b);
      NoBlanksStay(left);
    }
  }

  lemma ExampleOfComment(quoted: string, quote: string)
    requires quote == "'" && quoted == quote + "t */ " + quote
    ensures "/* don" + (quoted + ("secret" + quote)) == "/* don't */ 'secret'"
    ensures "/* don" + ("'?'" + ("secret" + quote)) == "/* don'?'secret'"
    ensures "/*" + (" " + "don'?'secret'") == "/* don'?'secret'"
  {
  }

  /** Without any block: the apostrophe of a comment is taken for the beginning of a literal. */
  lemma CommentLeaks()
    ensures RedactSqlLiterals("/* don't */ 'secret'") == "/* don'?'secret'"
  {
    ExampleOfComment([QUOTE] + "t */ " + [QUOTE], [QUOTE]);
    LonelyRedacted("/* don", "t */ ", "secret", "/* don't */ 'secret'", "/* don'?'secret'", "/*", " ", "don'?'secret'");
  }

  lemma ExampleOfQuotedName(quoted: string, quote: string)
    requires quote == "'" && quoted == quote + "b\"=" + quote
    ensures "\"o" + (quoted + ("secret" + quote)) == "\"o'b\"='secret'"
    ensures "\"o" + ("'?'" + ("secret" + quote)) == "\"o'?'secret'"
    ensures "\"o'" + ("" + "?'secret'") == "\"o'?'secret'"
  {
  }

  /** So is that of a quoted identifier. */
  lemma QuotedNameLeaks()
    ensures RedactSqlLiterals("\"o'b\"='secret'") == "\"o'?'secret'"
  {
    ExampleOfQuotedName([QUOTE] + "b\"=" + [QUOTE], [QUOTE]);
    LonelyRedacted("\"o", "b\"=", "secret", "\"o'b\"='secret'", "\"o'?'secret'", "\"o'", "", "?'secret'");
  }

  lemma ExampleOfName()
    ensures "t" + ("$" + ("a" + ("$" + ("b," + ("$$" + ("secret" + "$$")))))) == "t$a$b,$$secret$$"
    ensures "t" + ("$?$" + ("secret" + "$$")) == "t$?$secret$$"
  {
  }

  lemma MarkRedacted(text: string, tag: string, middle: string, secret: string, statement: string, output: string)
    requires DollarFree(text) && IsTag(tag) && tag != "" && DollarFree(middle) && DollarFree(secret)
    requires statement == text + ("$" + (tag + ("$" + (middle + ("$$" + (secret + "$$"))))))
    requires output == text + ("$?$" + (secret + "$$")) && QuoteFree(statement)
    requires BlankFree(output) && |output| <= MAX_STATEMENT_LENGTH
    ensures RedactSqlLiterals(statement) == output
  {
    var inside := middle + ("$$" + (secret + "$$"));
    TextStays(text, "$" + (tag + ("$" + inside)));
    MarkBegins(tag, inside);
    DoubledDollarEnds(tag, middle, secret + "$$");
    TextStays(secret, "$$");
    UnclosedStays("");
    assert "$$" + "" == "$$";
    QuoteFreeStays(statement);
    RedactedTo(statement, statement, output);
  }

  /** The dollar signs of an identifier are taken for a mark, which the opening mark of the block closes. */
  lemma NameLeaks()
    ensures RedactSqlLiterals("t$a$b,$$secret$$") == "t$?$secret$$"
  {
    ExampleOfName();
    MarkRedacted("t", "a", "b,", "secret", "t$a$b,$$secret$$", "t$?$secret$$");
  }
}
