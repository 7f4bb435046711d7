/** Removing the contents of literals from an SQL statement while keeping its shape. */
module SqlRedaction {
  import opened Results
  import opened Texts

  const MAX_STATEMENT_LENGTH := 1024
  const TRUNCATION_MARK := "\U{2026}[recortado]"
  const QUOTE := '\''

  // ---- string literals ----

  /**
   * Where the literal closes whose opening quote stands before the text. A doubled quote belongs to the
   * literal; if no single quote follows, the match falls back to the last doubled one.
   */
  function CloseAt(s: string): (k: Option<nat>)
    ensures k.Some? ==> k.value < |s|
  {
    if s == "" then None
    else if s[0] != QUOTE then
      var rest := CloseAt(s[1..]);
      if rest.Some? then Some(rest.value + 1) else None
    else if |s| > 1 && s[1] == QUOTE then
      var rest := CloseAt(s[2..]);
      if rest.Some? then Some(rest.value + 2) else Some(0)
    else Some(0)
  }

  const PLACEHOLDER := "'?'"

  /** Every match of a string literal becomes the placeholder. */
  function ReplaceStrings(s: string): string {
    if s == "" then ""
    else if s[0] == QUOTE && CloseAt(s[1..]).Some? then
      PLACEHOLDER + ReplaceStrings(s[CloseAt(s[1..]).value + 2..])
    else [s[0]] + ReplaceStrings(s[1..])
  }

  // ---- dollar-quoted blocks ----

  predicate IsWordStart(c: char) {
    'A' <= c <= 'Z' || 'a' <= c <= 'z' || c == '_'
  }

  predicate IsWord(c: char) {
    IsWordStart(c) || '0' <= c <= '9'
  }

  function WordLength(s: string): (n: nat)
    ensures n <= |s|
  {
    if s == "" || !IsWord(s[0]) then 0 else 1 + WordLength(s[1..])
  }

  /** The tag of a block that opens at the beginning: a word or nothing between two dollar signs. */
  function OpeningTag(s: string): (tag: Option<string>)
    ensures tag.Some? ==> |tag.value| + 2 <= |s|
  {
    if |s| < 2 || s[0] != '$' then None
    else if s[1] == '$' then Some("")
    else
      var n := WordLength(s[1..]);
      if IsWordStart(s[1]) && n + 1 < |s| && s[n + 1] == '$' then Some(s[1..n + 1]) else None
  }

  /** What is left after the first closing mark: the tag between dollar signs, or two of them. */
  function AfterClosing(s: string, tag: string): (rest: Option<string>)
    ensures rest.Some? ==> |rest.value| < |s|
  {
    if s == "" then None
    else if "$" + tag + "$" <= s then Some(s[|tag| + 2..])
    else if "$$" <= s then Some(s[2..])
    else AfterClosing(s[1..], tag)
  }

  function ReplaceBlocks(s: string): string
    decreases |s|
  {
    if s == "" then ""
    else
      var tag := OpeningTag(s);
      var rest := if tag.Some? then AfterClosing(s[|tag.value| + 2..], tag.value) else None;
      if rest.Some? then "$?$" + ReplaceBlocks(rest.value) else [s[0]] + ReplaceBlocks(s[1..])
  }

  // ---- white space and length ----

  function Collapse(s: string): string {
    if s == "" then ""
    else if IsBlank(s[0]) then (if |s| > 1 && IsBlank(s[1]) then "" else " ") + Collapse(s[1..])
    else [s[0]] + Collapse(s[1..])
  }

  function Truncate(s: string): string {
    if |s| <= MAX_STATEMENT_LENGTH then s
    else s[..MAX_STATEMENT_LENGTH - |TRUNCATION_MARK|] + TRUNCATION_MARK
  }

  function RedactSqlLiterals(statement: string): string {
    Truncate(Trim(Collapse(ReplaceBlocks(ReplaceStrings(statement)))))
  }

  // ---- the shape of a statement ----

  /** A literal and the text after it. */
  datatype Piece = Piece(content: string, after: string)

  predicate QuoteFree(s: string) {
    QUOTE !in s
  }

  /** How SQL writes a quote inside a literal. */
  function Doubled(content: string): string {
    if content == "" then ""
    else (if content[0] == QUOTE then [QUOTE, QUOTE] else [content[0]]) + Doubled(content[1..])
  }

  function Quoted(content: string): string {
    [QUOTE] + Doubled(content) + [QUOTE]
  }

  function Written(pieces: seq<Piece>): string {
    if pieces == [] then "" else Quoted(pieces[0].content) + pieces[0].after + Written(pieces[1..])
  }

  predicate WellFormed(pieces: seq<Piece>) {
    forall i :: 0 <= i < |pieces| ==> QuoteFree(pieces[i].after)
  }

  /** What is left of the pieces: the texts between literals, adjacent literals counting as one. */
  function Shape(pieces: seq<Piece>): string {
    if pieces == [] then ""
    else if pieces[0].after == "" && |pieces| > 1 then Shape(pieces[1..])
    else PLACEHOLDER + pieces[0].after + Shape(pieces[1..])
  }

  lemma {:induction false} CloseAtEndOfContent(content: string, tail: string)
    requires tail == "" || tail[0] != QUOTE
    ensures CloseAt(Doubled(content) + ([QUOTE] + tail)) == Some(|Doubled(content)|)
    decreases |content|
  {
    var s := Doubled(content) + ([QUOTE] + tail);
    if content == "" {
      assert s == [QUOTE] + tail;
    } else {
      CloseAtEndOfContent(content[1..], tail);
      var rest := Doubled(content[1..]) + ([QUOTE] + tail);
      if content[0] == QUOTE {
        assert s[2..] == rest;
      } else {
        assert s[1..] == rest;
      }
    }
  }

  lemma {:induction false} TextPasses(text: string, tail: string)
    requires QuoteFree(text)
    ensures ReplaceStrings(text + tail) == text + ReplaceStrings(tail)
    decreases |text|
  {
    if text == "" {
      assert text + tail == tail;
    } else {
      assert (text + tail)[1..] == text[1..] + tail;
      TextPasses(text[1..], tail);
    }
  }

  lemma LiteralCut(content: string, tail: string, inside: string)
    requires inside == Doubled(content) + ([QUOTE] + tail)
    ensures Quoted(content) + tail == [QUOTE] + inside
    ensures ([QUOTE] + inside)[1..] == inside && ([QUOTE] + inside)[|Doubled(content)| + 2..] == tail
  {
  }

  lemma LiteralReplaced(content: string, tail: string)
    requires tail == "" || tail[0] != QUOTE
    ensures ReplaceStrings(Quoted(content) + tail) == PLACEHOLDER + ReplaceStrings(tail)
  {
    LiteralCut(content, tail, Doubled(content) + ([QUOTE] + tail));
    CloseAtEndOfContent(content, tail);
  }

  /** Without a quote to close it, a literal closes at the last quote of its content. */
  lemma {:induction false} CloseFallsBack(content: string, rest: string)
    requires QuoteFree(rest)
    ensures CloseAt(Doubled(content) + ([QUOTE, QUOTE] + rest)) == Some(|Doubled(content)|)
    decreases |content|
  {
    var s := Doubled(content) + ([QUOTE, QUOTE] + rest);
    if content == "" {
      assert s == [QUOTE, QUOTE] + rest && s[2..] == rest;
      NothingCloses(rest);
    } else {
      CloseFallsBack(content[1..], rest);
      var next := Doubled(content[1..]) + ([QUOTE, QUOTE] + rest);
      if content[0] == QUOTE {
        assert s[2..] == next;
      } else {
        assert s[1..] == next;
      }
    }
  }

  lemma {:induction false} NothingCloses(rest: string)
    requires QuoteFree(rest)
    ensures CloseAt(rest) == None
    decreases |rest|
  {
    if rest != "" {
      NothingCloses(rest[1..]);
    }
  }

  /** So of a literal that never ends the part behind its last doubled quote stays, behind one quote. */
  lemma UnclosedShows(content: string, rest: string)
    requires QuoteFree(rest)
    ensures ReplaceStrings([QUOTE] + (Doubled(content) + ([QUOTE, QUOTE] + rest))) == PLACEHOLDER + ([QUOTE] + rest)
  {
    var inside := Doubled(content) + ([QUOTE, QUOTE] + rest);
    var s := [QUOTE] + inside;
    CloseFallsBack(content, rest);
    assert s[0] == QUOTE && s[1..] == inside;
    assert s[|Doubled(content)| + 2..] == [QUOTE] + rest;
    NothingCloses(rest);
    TextPasses(rest, "");
    assert rest + "" == rest && ([QUOTE] + rest)[1..] == rest;
  }

  lemma {:induction false} DoubledConcat(a: string, b: string)
    ensures Doubled(a + b) == Doubled(a) + Doubled(b)
    decreases |a|
  {
    if a == "" {
      assert a + b == b;
    } else {
      assert (a + b)[1..] == a[1..] + b;
      DoubledConcat(a[1..], b);
    }
  }

  /** Two literals with nothing between them read as one with a quote inside. */
  lemma AdjacentMerge(a: string, b: string)
    ensures Quoted(a) + Quoted(b) == Quoted(a + [QUOTE] + b)
  {
    DoubledConcat(a + [QUOTE], b);
    DoubledConcat(a, [QUOTE]);
    DoubledQuote();
  }

  lemma DoubledQuote()
    ensures Doubled([QUOTE]) == [QUOTE, QUOTE]
  {
    assert [QUOTE][1..] == "";
  }

  /** The pieces with the first two literals, which touch, as one. */
  function MergeFirst(pieces: seq<Piece>): seq<Piece>
    requires |pieces| > 1
  {
    [Piece(pieces[0].content + [QUOTE] + pieces[1].content, pieces[1].after)] + pieces[2..]
  }

  lemma WrittenCons(piece: Piece, rest: seq<Piece>)
    ensures Written([piece] + rest) == Quoted(piece.content) + piece.after + Written(rest)
  {
    assert ([piece] + rest)[1..] == rest;
  }

  lemma Regroup(a: string, b: string, c: string, d: string)
    ensures a + "" + (b + c + d) == (a + b) + c + d
  {
  }

  lemma MergeFirstWritten(pieces: seq<Piece>)
    requires |pieces| > 1 && pieces[0].after == ""
    ensures Written(MergeFirst(pieces)) == Written(pieces)
  {
    var p, q, rest := pieces[0], pieces[1], pieces[2..];
    assert pieces == [p] + ([q] + rest);
    WrittenCons(p, [q] + rest);
    WrittenCons(q, rest);
    WrittenCons(MergeFirst(pieces)[0], rest);
    AdjacentMerge(p.content, q.content);
    Regroup(Quoted(p.content), Quoted(q.content), q.after, Written(rest));
  }

  lemma MergeFirstShape(pieces: seq<Piece>)
    requires |pieces| > 1
    ensures Shape(MergeFirst(pieces)) == Shape(pieces[1..])
  {
    assert pieces[1..][1..] == pieces[2..] && MergeFirst(pieces)[1..] == pieces[2..];
  }

  lemma Regroup3(a: string, b: string, c: string)
    ensures a + (b + c) == (a + b) + c
  {
  }

  lemma Regroup4(a: string, b: string, c: string, d: string)
    ensures a + b + c + d == a + (b + (c + d))
  {
  }

  /** A literal before the text does not run on into it. */
  predicate Joins(tail: string) {
    tail == "" || tail[0] != QUOTE
  }

  lemma FirstPieceReduces(piece: Piece, rest: seq<Piece>, tail: string)
    requires QuoteFree(piece.after) && (piece.after != "" || (rest == [] && Joins(tail)))
    ensures ReplaceStrings(Written([piece] + rest) + tail) ==
      PLACEHOLDER + piece.after + ReplaceStrings(Written(rest) + tail)
  {
    var next := piece.after + (Written(rest) + tail);
    WrittenCons(piece, rest);
    Regroup4(Quoted(piece.content), piece.after, Written(rest), tail);
    LiteralReplaced(piece.content, next);
    TextPasses(piece.after, Written(rest) + tail);
    Regroup3(PLACEHOLDER, piece.after, ReplaceStrings(Written(rest) + tail));
  }

  lemma {:induction false} PiecesThen(pieces: seq<Piece>, tail: string)
    requires WellFormed(pieces) && Joins(tail)
    ensures ReplaceStrings(Written(pieces) + tail) == Shape(pieces) + ReplaceStrings(tail)
    decreases |pieces|
  {
    if pieces == [] {
      assert "" + tail == tail && "" + ReplaceStrings(tail) == ReplaceStrings(tail);
    } else if pieces[0].after == "" && |pieces| > 1 {
      MergeFirstWritten(pieces);
      MergeFirstShape(pieces);
      PiecesThen(MergeFirst(pieces), tail);
    } else {
      FirstPieceReduces(pieces[0], pieces[1..], tail);
      assert pieces == [pieces[0]] + pieces[1..];
      PiecesThen(pieces[1..], tail);
      Regroup3(PLACEHOLDER + pieces[0].after, Shape(pieces[1..]), ReplaceStrings(tail));
    }
  }

  /** Replacing literals leaves the texts between them and a placeholder for each run of adjacent literals. */
  lemma PiecesReduceToShape(pieces: seq<Piece>)
    requires WellFormed(pieces)
    ensures ReplaceStrings(Written(pieces)) == Shape(pieces)
  {
    PiecesThen(pieces, "");
    assert Written(pieces) + "" == Written(pieces) && Shape(pieces) + ReplaceStrings("") == Shape(pieces);
  }

  predicate SameShape(pieces: seq<Piece>, others: seq<Piece>) {
    |pieces| == |others| && forall i :: 0 <= i < |pieces| ==> pieces[i].after == others[i].after
  }

  lemma {:induction false} ShapeOfTexts(pieces: seq<Piece>, others: seq<Piece>)
    requires SameShape(pieces, others)
    ensures Shape(pieces) == Shape(others)
    decreases |pieces|
  {
    if pieces != [] {
      ShapeOfTexts(pieces[1..], others[1..]);
    }
  }

  /** The output does not depend on what the literals contain. */
  lemma ContentsNeverShow(first: string, pieces: seq<Piece>, others: seq<Piece>)
    requires QuoteFree(first) && WellFormed(pieces) && SameShape(pieces, others)
    ensures RedactSqlLiterals(first + Written(pieces)) == RedactSqlLiterals(first + Written(others))
  {
    PiecesReduceToShape(pieces);
    PiecesReduceToShape(others);
    ShapeOfTexts(pieces, others);
    TextPasses(first, Written(pieces));
    TextPasses(first, Written(others));
  }

  // ---- how many placeholders ----

  /** Placeholders in a text, read from the left. */
  function Placeholders(s: string): nat {
    if |s| < |PLACEHOLDER| then 0
    else if s[..|PLACEHOLDER|] == PLACEHOLDER then 1 + Placeholders(s[|PLACEHOLDER|..])
    else Placeholders(s[1..])
  }

  predicate Separated(pieces: seq<Piece>) {
    forall i :: 0 <= i < |pieces| - 1 ==> pieces[i].after != ""
  }

  lemma {:induction false} NoneInText(text: string, tail: string)
    requires QuoteFree(text)
    ensures Placeholders(text + tail) == Placeholders(tail)
    decreases |text|
  {
    if text == "" {
      assert text + tail == tail;
    } else {
      assert (text + tail)[0] == text[0] != QUOTE;
      assert (text + tail)[1..] == text[1..] + tail;
      NoneInText(text[1..], tail);
    }
  }

  lemma OneThen(tail: string)
    ensures Placeholders(PLACEHOLDER + tail) == 1 + Placeholders(tail)
  {
    assert (PLACEHOLDER + tail)[|PLACEHOLDER|..] == tail;
  }

  lemma FirstPlaceholder(after: string, rest: string)
    requires QuoteFree(after)
    ensures Placeholders(PLACEHOLDER + after + rest) == 1 + Placeholders(rest)
  {
    Regroup3(PLACEHOLDER, after, rest);
    OneThen(after + rest);
    NoneInText(after, rest);
  }

  lemma SeparatedNext(pieces: seq<Piece>)
    requires pieces != [] && (pieces[0].after != "" || |pieces| == 1)
    ensures Separated(pieces) <==> Separated(pieces[1..])
  {
    var rest := pieces[1..];
    if Separated(pieces) {
      assert forall i :: 0 <= i < |rest| ==> rest[i] == pieces[i + 1];
    }
    if Separated(rest) {
      assert forall i :: 1 <= i < |pieces| ==> pieces[i] == rest[i - 1];
    }
  }

  lemma {:induction false} PlaceholdersOfShape(pieces: seq<Piece>)
    requires WellFormed(pieces)
    ensures Placeholders(Shape(pieces)) <= |pieces|
    ensures Placeholders(Shape(pieces)) == |pieces| <==> Separated(pieces)
    decreases |pieces|
  {
    if pieces != [] {
      var rest := pieces[1..];
      PlaceholdersOfShape(rest);
      if pieces[0].after == "" && |pieces| > 1 {
        assert !Separated(pieces);
      } else {
        SeparatedNext(pieces);
        FirstPlaceholder(pieces[0].after, Shape(rest));
      }
    }
  }

  /** The output never has more placeholders than literals, and one for each exactly when no two touch. */
  lemma OnePlaceholderEach(pieces: seq<Piece>)
    requires WellFormed(pieces)
    ensures Placeholders(ReplaceStrings(Written(pieces))) <= |pieces|
    ensures Placeholders(ReplaceStrings(Written(pieces))) == |pieces| <==> Separated(pieces)
  {
    PiecesReduceToShape(pieces);
    PlaceholdersOfShape(pieces);
  }

  // ---- the words of tags ----

  /** By code point: a tag is of letters, digits and underscores, and does not begin with a digit. */
  lemma WordCharacters(c: char)
    ensures IsWordStart(c) <==> 65 <= c as int <= 90 || 97 <= c as int <= 122 || c as int == 95
    ensures IsWord(c) <==> IsWordStart(c) || 48 <= c as int <= 57
  {
  }

  // ---- length and white space ----

  lemma Cut(whole: string)
    ensures |whole| <= 1024 ==> Truncate(whole) == whole
    ensures |whole| > 1024 ==>
      && |Truncate(whole)| == 1024
      && Truncate(whole)[..1012] == whole[..1012]
      && Truncate(whole)[1012..] == TRUNCATION_MARK
  {
    assert |TRUNCATION_MARK| == 12;
  }

  /** The output is never longer than the limit, and one that was cut says so. */
  lemma LengthLimited(statement: string)
    ensures |RedactSqlLiterals(statement)| <= 1024
    ensures var whole := Trim(Collapse(ReplaceBlocks(ReplaceStrings(statement))));
            if |whole| <= 1024 then RedactSqlLiterals(statement) == whole
            else
              && RedactSqlLiterals(statement)[..1012] == whole[..1012]
              && RedactSqlLiterals(statement)[1012..] == "\U{2026}[recortado]"
  {
    Cut(Trim(Collapse(ReplaceBlocks(ReplaceStrings(statement)))));
  }

  /** White space never comes twice in a row, and is never anything but a space. */
  lemma {:induction false} CollapsedOnce(s: string, i: nat)
    requires i < |Collapse(s)| && IsBlank(Collapse(s)[i])
    ensures Collapse(s)[i] == ' '
    ensures i + 1 < |Collapse(s)| ==> !IsBlank(Collapse(s)[i + 1])
    decreases |s|
  {
    var head := if !IsBlank(s[0]) then [s[0]] else if |s| > 1 && IsBlank(s[1]) then "" else " ";
    assert Collapse(s) == head + Collapse(s[1..]);
    if i >= |head| {
      CollapsedOnce(s[1..], i - |head|);
    } else if |s| > 1 {
      CollapseHead(s[1..]);
    }
  }

  lemma {:induction false} CollapseHead(s: string)
    requires s != "" && !IsBlank(s[0])
    ensures Collapse(s) != "" && Collapse(s)[0] == s[0]
  {
  }
}
