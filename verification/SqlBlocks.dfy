/** Dollar-quoted blocks in a statement: which bodies are redacted whole, and which are not. */
module SqlBlocks {
  import opened Results
  import opened SqlRedaction
  import opened Texts

  /** Nothing, or a word. */
  predicate IsTag(tag: string) {
    tag == "" || (IsWordStart(tag[0]) && forall i :: 0 <= i < |tag| ==> IsWord(tag[i]))
  }

  /** The mark that opens and closes a block. */
  function Mark(tag: string): string {
    "$" + tag + "$"
  }

  /** A block with this tag would close at the beginning of the text. */
  predicate ClosesAt(tag: string, s: string) {
    Mark(tag) <= s || "$$" <= s
  }

  /** A closing mark begins inside the body, its last characters perhaps those of the mark after it. */
  predicate ClosesInside(tag: string, body: string) {
    exists k :: 0 <= k < |body| && ClosesAt(tag, (body + Mark(tag))[k..])
  }

  // ---- one block ----

  lemma {:induction false} WordEnds(word: string, tail: string)
    requires forall i :: 0 <= i < |word| ==> IsWord(word[i])
    ensures WordLength(word + ("$" + tail)) == |word|
    decreases |word|
  {
    if word == "" {
      assert word + ("$" + tail) == "$" + tail;
    } else {
      assert (word + ("$" + tail))[1..] == word[1..] + ("$" + tail);
      WordEnds(word[1..], tail);
    }
  }

  lemma MarkOpens(tag: string, tail: string)
    requires IsTag(tag)
    ensures OpeningTag(Mark(tag) + tail) == Some(tag) && (Mark(tag) + tail)[|tag| + 2..] == tail
  {
    var s := Mark(tag) + tail;
    assert s[1..] == tag + ("$" + tail);
    if tag != "" {
      WordEnds(tag, tail);
      assert s[1] == tag[0];
      assert s[1..|tag| + 1] == tag;
    }
  }

  /** Marks that begin before the end of a text do not depend on what follows it and its own mark. */
  lemma ClosesBefore(tag: string, body: string, tail: string)
    requires body != ""
    ensures ClosesAt(tag, body + (Mark(tag) + tail)) <==> ClosesAt(tag, body + Mark(tag))
  {
    var longer, shorter := body + (Mark(tag) + tail), body + Mark(tag);
    assert longer == shorter + tail;
    assert longer[..|tag| + 2] == shorter[..|tag| + 2] && longer[..2] == shorter[..2];
  }

  lemma ClosesInsideNext(tag: string, body: string)
    requires body != "" && !ClosesAt(tag, body + Mark(tag))
    ensures ClosesInside(tag, body) <==> ClosesInside(tag, body[1..])
  {
    var s, rest := body + Mark(tag), body[1..] + Mark(tag);
    assert s[0..] == s;
    assert forall k :: 1 <= k <= |s| ==> s[k..] == rest[k - 1..];
    if ClosesInside(tag, body[1..]) {
      var k :| 0 <= k < |body[1..]| && ClosesAt(tag, rest[k..]);
      assert s[k + 1..] == rest[k..];
    }
  }

  /**
   * The block ends at its own mark exactly when none begins inside the body; otherwise it ends too soon and
   * more of the statement is left.
   */
  lemma {:induction false} EndsAtOwnMark(tag: string, body: string, tail: string)
    ensures var rest := AfterClosing(body + (Mark(tag) + tail), tag);
            && rest.Some?
            && (rest == Some(tail) <==> !ClosesInside(tag, body))
            && (ClosesInside(tag, body) ==> |rest.value| > |tail|)
    decreases |body|
  {
    var s := body + (Mark(tag) + tail);
    if body == "" {
      assert s == Mark(tag) + tail;
      assert s[..|tag| + 2] == Mark(tag) && s[|tag| + 2..] == tail;
    } else {
      ClosesBefore(tag, body, tail);
      if ClosesAt(tag, s) {
        assert (body + Mark(tag))[0..] == body + Mark(tag);
      } else {
        ClosesInsideNext(tag, body);
        assert s[1..] == body[1..] + (Mark(tag) + tail);
        EndsAtOwnMark(tag, body[1..], tail);
      }
    }
  }

  lemma BlockStep(s: string, tag: string, inside: string, rest: string)
    requires OpeningTag(s) == Some(tag) && s[|tag| + 2..] == inside && AfterClosing(inside, tag) == Some(rest)
    ensures ReplaceBlocks(s) == "$?$" + ReplaceBlocks(rest)
  {
  }

  /** A block in which no mark begins leaves one placeholder, whatever its body. */
  lemma BlockReplaced(tag: string, body: string, tail: string)
    requires IsTag(tag) && !ClosesInside(tag, body)
    ensures ReplaceBlocks(Mark(tag) + (body + (Mark(tag) + tail))) == "$?$" + ReplaceBlocks(tail)
  {
    var inside := body + (Mark(tag) + tail);
    MarkOpens(tag, inside);
    EndsAtOwnMark(tag, body, tail);
    BlockStep(Mark(tag) + inside, tag, inside, tail);
  }

  /** Every dollar sign of the body is that of a numbered parameter. */
  predicate OnlyParameters(body: string) {
    forall k :: 0 <= k < |body| && body[k] == '$' ==> k + 1 < |body| && '0' <= body[k + 1] <= '9'
  }

  /** Parameters such as $1 end no block. */
  lemma ParametersCloseNothing(tag: string, body: string)
    requires IsTag(tag) && OnlyParameters(body)
    ensures !ClosesInside(tag, body)
  {
    var s := body + Mark(tag);
    forall k | 0 <= k < |body|
      ensures !ClosesAt(tag, s[k..])
    {
      assert s[k..][0] == body[k];
      if body[k] == '$' {
        assert s[k..][1] == body[k + 1];
        assert Mark(tag)[1] == if tag == "" then '$' else tag[0];
      }
    }
  }

  // ---- text before a block ----

  /** No block opens in the text, even if a dollar sign follows it. */
  predicate OpensNothing(text: string) {
    forall k :: 0 <= k < |text| ==> OpeningTag((text + "$")[k..]).None?
  }

  lemma {:induction false} WordBefore(v: string, tail: string)
    ensures WordLength(v + ("$" + tail)) == WordLength(v + "$") <= |v|
    decreases |v|
  {
    if v == "" {
      assert v + ("$" + tail) == "$" + tail && v + "$" == "$";
    } else {
      assert (v + ("$" + tail))[1..] == v[1..] + ("$" + tail) && (v + "$")[1..] == v[1..] + "$";
      WordBefore(v[1..], tail);
    }
  }

  /** Whether a block opens is settled by the first dollar sign that follows. */
  lemma OpeningSettled(u: string, tail: string)
    requires u != ""
    ensures OpeningTag(u + ("$" + tail)).None? <==> OpeningTag(u + "$").None?
  {
    var longer, shorter := u + ("$" + tail), u + "$";
    assert longer[1..] == u[1..] + ("$" + tail) && shorter[1..] == u[1..] + "$";
    WordBefore(u[1..], tail);
    var n := WordLength(shorter[1..]);
    assert longer[n + 1] == shorter[n + 1];
    assert longer[1] == shorter[1] && longer[0] == shorter[0];
  }

  lemma OpensNothingNext(text: string)
    requires text != "" && OpensNothing(text)
    ensures OpeningTag(text + "$").None? && OpensNothing(text[1..])
  {
    assert (text + "$")[0..] == text + "$";
    forall k | 0 <= k < |text[1..]|
      ensures OpeningTag((text[1..] + "$")[k..]).None?
    {
      assert (text[1..] + "$")[k..] == (text + "$")[k + 1..];
    }
  }

  lemma {:induction false} TextPassesBlocks(text: string, tail: string)
    requires OpensNothing(text)
    ensures ReplaceBlocks(text + ("$" + tail)) == text + ReplaceBlocks("$" + tail)
    decreases |text|
  {
    if text == "" {
      assert text + ("$" + tail) == "$" + tail;
    } else {
      OpensNothingNext(text);
      OpeningSettled(text, tail);
      assert (text + ("$" + tail))[1..] == text[1..] + ("$" + tail);
      TextPassesBlocks(text[1..], tail);
    }
  }

  // ---- whole statements ----

  /** A text with literals in it, none of them cut off. */
  datatype Fragment = Fragment(first: string, pieces: seq<Piece>)

  predicate Balanced(f: Fragment) {
    QuoteFree(f.first) && WellFormed(f.pieces)
  }

  function Full(f: Fragment): string {
    f.first + Written(f.pieces)
  }

  /** What the replacement of literals leaves of it. */
  function Outline(f: Fragment): string {
    f.first + Shape(f.pieces)
  }

  /** Text, then a block. */
  datatype Section = Section(before: Fragment, tag: string, body: Fragment)

  function Source(sections: seq<Section>, last: Fragment): string {
    if sections == [] then Full(last)
    else
      var s := sections[0];
      Full(s.before) + (Mark(s.tag) + (Full(s.body) + (Mark(s.tag) + Source(sections[1..], last))))
  }

  function WithoutLiterals(sections: seq<Section>, last: Fragment): string {
    if sections == [] then Outline(last)
    else
      var s := sections[0];
      Outline(s.before) + (Mark(s.tag) + (Outline(s.body) + (Mark(s.tag) + WithoutLiterals(sections[1..], last))))
  }

  function WithoutBodies(sections: seq<Section>, last: Fragment): string {
    if sections == [] then ReplaceBlocks(Outline(last))
    else Outline(sections[0].before) + ("$?$" + WithoutBodies(sections[1..], last))
  }

  predicate SectionOk(s: Section) {
    && Balanced(s.before) && Balanced(s.body) && IsTag(s.tag)
    && OpensNothing(Outline(s.before))
    && !ClosesInside(s.tag, Outline(s.body))
  }

  predicate AllOk(sections: seq<Section>) {
    forall i :: 0 <= i < |sections| ==> SectionOk(sections[i])
  }

  lemma FragmentThen(f: Fragment, tail: string)
    requires Balanced(f) && Joins(tail)
    ensures ReplaceStrings(Full(f) + tail) == Outline(f) + ReplaceStrings(tail)
  {
    Regroup3(f.first, Written(f.pieces), tail);
    TextPasses(f.first, Written(f.pieces) + tail);
    PiecesThen(f.pieces, tail);
    Regroup3(f.first, Shape(f.pieces), ReplaceStrings(tail));
  }

  lemma MarkThen(tag: string, tail: string)
    requires IsTag(tag)
    ensures Joins(Mark(tag) + tail) && ReplaceStrings(Mark(tag) + tail) == Mark(tag) + ReplaceStrings(tail)
  {
    assert QuoteFree(Mark(tag));
    TextPasses(Mark(tag), tail);
  }

  lemma {:induction false} LiteralsGo(sections: seq<Section>, last: Fragment)
    requires AllOk(sections) && Balanced(last)
    ensures ReplaceStrings(Source(sections, last)) == WithoutLiterals(sections, last)
    decreases |sections|
  {
    if sections == [] {
      FragmentThen(last, "");
      assert Full(last) + "" == Full(last) && Outline(last) + ReplaceStrings("") == Outline(last);
    } else {
      var s, rest := sections[0], Source(sections[1..], last);
      LiteralsGo(sections[1..], last);
      MarkThen(s.tag, rest);
      FragmentThen(s.body, Mark(s.tag) + rest);
      MarkThen(s.tag, Full(s.body) + (Mark(s.tag) + rest));
      FragmentThen(s.before, Mark(s.tag) + (Full(s.body) + (Mark(s.tag) + rest)));
    }
  }

  lemma {:induction false} BodiesGo(sections: seq<Section>, last: Fragment)
    requires AllOk(sections)
    ensures ReplaceBlocks(WithoutLiterals(sections, last)) == WithoutBodies(sections, last)
    decreases |sections|
  {
    if sections != [] {
      var s, rest := sections[0], WithoutLiterals(sections[1..], last);
      var inside := Outline(s.body) + (Mark(s.tag) + rest);
      BodiesGo(sections[1..], last);
      BlockReplaced(s.tag, Outline(s.body), rest);
      MarkBegins(s.tag, inside);
      TextPassesBlocks(Outline(s.before), s.tag + ("$" + inside));
    }
  }

  lemma MarkBegins(tag: string, tail: string)
    ensures Mark(tag) + tail == "$" + (tag + ("$" + tail))
  {
  }

  /** The same text outside literals and blocks. */
  predicate SameFragment(f: Fragment, g: Fragment) {
    f.first == g.first && SameShape(f.pieces, g.pieces)
  }

  predicate SameText(sections: seq<Section>, others: seq<Section>) {
    |sections| == |others| && forall i :: 0 <= i < |sections| ==> SameFragment(sections[i].before, others[i].before)
  }

  lemma OutlineOf(f: Fragment, g: Fragment)
    requires SameFragment(f, g)
    ensures Outline(f) == Outline(g)
  {
    ShapeOfTexts(f.pieces, g.pieces);
  }

  lemma {:induction false} OutputOfText(sections: seq<Section>, last: Fragment, others: seq<Section>,
                                        otherLast: Fragment)
    requires SameText(sections, others) && SameFragment(last, otherLast)
    ensures WithoutBodies(sections, last) == WithoutBodies(others, otherLast)
    decreases |sections|
  {
    if sections == [] {
      OutlineOf(last, otherLast);
    } else {
      OutlineOf(sections[0].before, others[0].before);
      OutputOfText(sections[1..], last, others[1..], otherLast);
    }
  }

  /**
   * Statements with any number of blocks and literals, literals inside blocks too: the output does not
   * depend on tags, bodies or contents, as long as no block opens in the text before one and no mark
   * begins inside a body.
   */
  lemma BodiesNeverShow(sections: seq<Section>, last: Fragment, others: seq<Section>, otherLast: Fragment)
    requires AllOk(sections) && AllOk(others) && Balanced(last) && Balanced(otherLast)
    requires SameText(sections, others) && SameFragment(last, otherLast)
    ensures RedactSqlLiterals(Source(sections, last)) == RedactSqlLiterals(Source(others, otherLast))
  {
    LiteralsGo(sections, last);
    LiteralsGo(others, otherLast);
    BodiesGo(sections, last);
    BodiesGo(others, otherLast);
    OutputOfText(sections, last, others, otherLast);
  }

  // ---- bodies that leak ----

  predicate DollarFree(s: string) {
    '$' !in s
  }

  lemma {:induction false} NoMarkWithin(x: string, tag: string, rest: string)
    requires DollarFree(x) && tag != "" && tag[0] != '$'
    ensures AfterClosing(x + ("$$" + rest), tag) == Some(rest)
    decreases |x|
  {
    var s := x + ("$$" + rest);
    if x == "" {
      assert s == "$$" + rest;
      assert s[1] == '$' && Mark(tag)[1] == tag[0];
      assert s[2..] == rest;
    } else {
      assert s[0] == x[0] != '$';
      assert s[1..] == x[1..] + ("$$" + rest);
      NoMarkWithin(x[1..], tag, rest);
    }
  }

  /** Two dollar signs in the body of a tagged block end it there, and what follows them shows. */
  lemma DoubledDollarEnds(tag: string, x: string, rest: string)
    requires IsTag(tag) && tag != "" && DollarFree(x)
    ensures ReplaceBlocks(Mark(tag) + (x + ("$$" + rest))) == "$?$" + ReplaceBlocks(rest)
  {
    var inside := x + ("$$" + rest);
    MarkOpens(tag, inside);
    NoMarkWithin(x, tag, rest);
    BlockStep(Mark(tag) + inside, tag, inside, rest);
  }

  lemma {:induction false} NoClosing(u: string, tag: string)
    requires DollarFree(u)
    ensures AfterClosing(u, tag).None?
    decreases |u|
  {
    if u != "" {
      assert ("$" + tag + "$")[0] == '$' != u[0];
      assert !("$" + tag + "$" <= u) && !("$$" <= u);
      NoClosing(u[1..], tag);
    }
  }

  lemma {:induction false} DollarFreeStays(u: string)
    requires DollarFree(u)
    ensures ReplaceBlocks(u) == u
    decreases |u|
  {
    if u != "" {
      DollarFreeStays(u[1..]);
      assert u == [u[0]] + u[1..];
    }
  }

  /** One dollar sign opens nothing, two open a block that never closes: the text shows as it is. */
  lemma UnclosedStays(u: string)
    requires DollarFree(u)
    ensures ReplaceBlocks("$" + u) == "$" + u
    ensures ReplaceBlocks("$$" + u) == "$$" + u
  {
    DollarFreeStays(u);
    NoClosing(u, "");
    assert ("$" + u)[1..] == u && ("$$" + u)[1..] == "$" + u && ("$$" + u)[2..] == u;
    assert OpeningTag("$" + u).None?;
    assert ReplaceBlocks("$$" + u) == "$" + ReplaceBlocks("$" + u);
  }

  predicate BlankFree(s: string) {
    forall i :: 0 <= i < |s| ==> !IsBlank(s[i])
  }

  lemma {:induction false} NoBlanksStay(s: string)
    requires BlankFree(s)
    ensures Collapse(s) == s && Trim(s) == s
    decreases |s|
  {
    if s != "" {
      NoBlanksStay(s[1..]);
      assert s == [s[0]] + s[1..];
    }
  }

  lemma RedactedTo(statement: string, left: string, output: string)
    requires ReplaceStrings(statement) == left && ReplaceBlocks(left) == output
    requires BlankFree(output) && |output| <= MAX_STATEMENT_LENGTH
    ensures RedactSqlLiterals(statement) == output
  {
    NoBlanksStay(output);
  }

  lemma QuoteFreeStays(s: string)
    requires QuoteFree(s)
    ensures ReplaceStrings(s) == s
  {
    TextPasses(s, "");
    assert s + "" == s;
  }

  lemma DollarFreeOpensNothing(text: string)
    requires DollarFree(text)
    ensures OpensNothing(text)
  {
    forall k | 0 <= k < |text|
      ensures OpeningTag((text + "$")[k..]).None?
    {
      assert (text + "$")[k..][0] == text[k];
    }
  }

  /** A mark that nothing follows is no block. */
  lemma LoneMarkStays(tag: string)
    requires IsTag(tag) && tag != ""
    ensures ReplaceBlocks("$" + (tag + "$")) == "$" + (tag + "$")
  {
    var s := "$" + (tag + "$");
    MarkOpens(tag, "");
    assert Mark(tag) + "" == s;
    assert DollarFree(tag);
    assert s[1..] == tag + "$";
    DollarFreeOpensNothing(tag);
    TextPassesBlocks(tag, "");
    assert "$" + "" == "$";
    UnclosedStays("");
  }

  /** Two dollar signs in the body of a tagged block: what stands between them and its end shows. */
  lemma DoubledDollarShows(tag: string, x: string, secret: string)
    requires IsTag(tag) && tag != "" && DollarFree(x) && DollarFree(secret)
    ensures ReplaceBlocks(Mark(tag) + (x + ("$$" + (secret + ("$" + (tag + "$")))))) ==
      "$?$" + (secret + ("$" + (tag + "$")))
  {
    DoubledDollarEnds(tag, x, secret + ("$" + (tag + "$")));
    DollarFreeOpensNothing(secret);
    TextPassesBlocks(secret, tag + "$");
    LoneMarkStays(tag);
  }

  lemma ExampleOfDoubledDollar()
    ensures Mark("a") + ("x" + ("$$" + ("secret" + ("$" + ("a" + "$"))))) == "$a$x$$secret$a$"
    ensures "$?$" + ("secret" + ("$" + ("a" + "$"))) == "$?$secret$a$"
  {
  }

  /** The body of this block shows, because two dollar signs end the block in the middle. */
  lemma DoubledDollarLeaks()
    ensures RedactSqlLiterals("$a$x$$secret$a$") == "$?$secret$a$"
  {
    ExampleOfDoubledDollar();
    DoubledDollarRedacted("a", "x", "secret", "$a$x$$secret$a$", "$?$secret$a$");
  }

  lemma DoubledDollarRedacted(tag: string, x: string, secret: string, statement: string, output: string)
    requires IsTag(tag) && tag != "" && DollarFree(x) && DollarFree(secret) && QuoteFree(statement)
    requires statement == Mark(tag) + (x + ("$$" + (secret + ("$" + (tag + "$")))))
    requires output == "$?$" + (secret + ("$" + (tag + "$")))
    requires BlankFree(output) && |output| <= MAX_STATEMENT_LENGTH
    ensures RedactSqlLiterals(statement) == output
  {
    DoubledDollarShows(tag, x, secret);
    QuoteFreeStays(statement);
    RedactedTo(statement, statement, output);
  }

  /** An apostrophe in a body starts a literal that ends at the next one: what the next literal holds shows. */
  lemma ApostropheShows(body: string, rest: string, secret: string)
    requires QuoteFree(body) && QuoteFree(rest) && QuoteFree(secret) && DollarFree(body) && DollarFree(secret)
    requires secret != ""
    ensures ReplaceStrings("$$" + (body + (Quoted(rest) + (secret + [QUOTE])))) ==
            "$$" + (body + (PLACEHOLDER + (secret + [QUOTE])))
    ensures ReplaceBlocks("$$" + (body + (PLACEHOLDER + (secret + [QUOTE])))) ==
            "$$" + (body + (PLACEHOLDER + (secret + [QUOTE])))
  {
    var tail := secret + [QUOTE];
    TextPasses("$$", body + (Quoted(rest) + tail));
    TextPasses(body, Quoted(rest) + tail);
    LiteralReplaced(rest, tail);
    TextPasses(secret, [QUOTE]);
    LoneQuoteStays();
    UnclosedStays(body + (PLACEHOLDER + tail));
  }

  lemma LoneQuoteStays()
    ensures ReplaceStrings([QUOTE]) == [QUOTE]
  {
    assert [QUOTE][1..] == "";
  }

  lemma QuotedPlain(content: string)
    requires QuoteFree(content)
    ensures Quoted(content) == [QUOTE] + content + [QUOTE]
  {
    DoubledPlain(content);
  }

  lemma ExampleOfApostrophe(quoted: string, quote: string)
    requires quote == "'" && quoted == quote + "s$$," + quote
    ensures "$$" + ("it" + (quoted + ("secret" + quote))) == "$$it's$$,'secret'"
    ensures "$$" + ("it" + ("'?'" + ("secret" + quote))) == "$$it'?'secret'"
  {
  }

  /** In this statement the content of the literal after the block shows. */
  lemma ApostropheLeaks()
    ensures RedactSqlLiterals("$$it's$$,'secret'") == "$$it'?'secret'"
  {
    ExampleOfApostrophe([QUOTE] + "s$$," + [QUOTE], [QUOTE]);
    ApostropheRedacted("it", "s$$,", "secret", "$$it's$$,'secret'", "$$it'?'secret'");
  }

  lemma ApostropheRedacted(body: string, rest: string, secret: string, statement: string, output: string)
    requires QuoteFree(body) && QuoteFree(rest) && QuoteFree(secret) && DollarFree(body) && DollarFree(secret)
    requires secret != "" && statement == "$$" + (body + (([QUOTE] + rest + [QUOTE]) + (secret + [QUOTE])))
    requires output == "$$" + (body + (PLACEHOLDER + (secret + [QUOTE])))
    requires BlankFree(output) && |output| <= MAX_STATEMENT_LENGTH
    ensures RedactSqlLiterals(statement) == output
  {
    QuotedPlain(rest);
    ApostropheShows(body, rest, secret);
    RedactedTo(statement, output, output);
  }

  lemma {:induction false} DoubledPlain(content: string)
    requires QuoteFree(content)
    ensures Doubled(content) == content
    decreases |content|
  {
    if content != "" {
      DoubledPlain(content[1..]);
      assert content == [content[0]] + content[1..];
    }
  }
}
