/**
 * The example tables of the notebook, as facts about the model.
 *
 * Each table is a constant holding its rows (the input and the expected
 * columns), and a lemma states that every row comes out as the table expects.
 * Each row has a lemma of its own that names the texts of the row and hands
 * them to the general lemmas of the other modules. The only work here is
 * spelling the concrete texts out, and it is kept apart: a `…Text` lemma
 * cuts a concrete text into its parts and says which parts are names, and
 * separate lemmas say how the parts are escaped.
 */
module Examples {
  import opened Text
  import opened Lexer
  import opened Json
  import opened Quoting
  import opened KeyToken
  import opened Scanner

  // ---------------------------------------------------------------------------
  // The texts of the tables and their escaped forms
  // ---------------------------------------------------------------------------

  /** Text that either kind of quotes holds as it is. */
  predicate Plain(x: JsString) {
    NeedsNoEscape(x) && forall k :: 0 <= k < |x| ==> x[k] != SingleQuote
  }

  /** Text a single-quoted literal holds with no escape, double quotes included. */
  predicate RawInSingle(x: JsString) {
    forall k :: 0 <= k < |x| ==> x[k] != SingleQuote && x[k] != Backslash && x[k] >= 0x20
  }

  /** Plain text is its own body in single and in double quotes. */
  lemma PlainBodies(x: JsString)
    requires Plain(x)
    ensures SqBody(x) == x && QuoteBody(x) == x
  {
    SqBodyPlain(x);
    QuoteBodyPlain(x);
  }

  /** Plain text on both sides of a part whose single-quoted body is `eb`. */
  lemma SqMiddle(x: JsString, body: JsString, a: JsString, b: JsString, c: JsString, eb: JsString)
    requires Plain(a) && Plain(c) && SqBody(b) == eb
    requires x == a + b + c && body == a + eb + c
    ensures SqBody(x) == body
  {
    PlainBodies(a);
    PlainBodies(c);
    SqBodyAppend(a + b, c);
    SqBodyAppend(a, b);
  }

  /** Plain text on both sides of a part whose JSON body is `eb`. */
  lemma QuoteMiddle(x: JsString, body: JsString, a: JsString, b: JsString, c: JsString, eb: JsString)
    requires Plain(a) && Plain(c) && QuoteBody(b) == eb
    requires x == a + b + c && body == a + eb + c
    ensures QuoteBody(x) == body
  {
    PlainBodies(a);
    PlainBodies(c);
    QuoteBodyAppend(a + b, c);
    QuoteBodyAppend(a, b);
  }

  /** Plain text between two double quotes: in a JSON body the quotes are escaped and the text kept. */
  lemma QuoteAround(x: JsString, y: JsString, h: JsString)
    requires Plain(h) && x == [DoubleQuote] + h + [DoubleQuote]
    requires y == [Backslash, DoubleQuote] + h + [Backslash, DoubleQuote]
    ensures QuoteBody(x) == y
  {
    PlainBodies(h);
    assert QuoteBody([DoubleQuote]) == [Backslash, DoubleQuote];
    QuoteBodyAppend([DoubleQuote] + h, [DoubleQuote]);
    QuoteBodyAppend([DoubleQuote], h);
  }

  lemma TestText(x: JsString)
    requires x == Js("test")
    ensures |x| > 0 && SqBody(x) == x && QuoteBody(x) == x
  {
    PlainBodies(x);
  }

  /** A plain code unit between single quotes, inside single quotes: both quotes escaped. */
  lemma SqBodyQuotedUnit(c: CodeUnit)
    requires Plain([c])
    ensures SqBody([SingleQuote, c, SingleQuote]) == [Backslash, SingleQuote, c, Backslash, SingleQuote]
  {
    assert [SingleQuote, c, SingleQuote][1..] == [c, SingleQuote];
    assert [c, SingleQuote][1..] == [SingleQuote];
    assert SqBody([SingleQuote]) == [Backslash, SingleQuote];
  }

  /** A plain code unit between double quotes, inside double quotes: both quotes escaped. */
  lemma QuoteBodyQuotedUnit(c: CodeUnit)
    requires Plain([c])
    ensures QuoteBody([DoubleQuote, c, DoubleQuote]) == [Backslash, DoubleQuote, c, Backslash, DoubleQuote]
  {
    assert [DoubleQuote, c, DoubleQuote][1..] == [c, DoubleQuote];
    assert [c, DoubleQuote][1..] == [DoubleQuote];
    assert QuoteBody([DoubleQuote]) == [Backslash, DoubleQuote];
  }

  /** `'b'` inside single quotes. */
  lemma QuotedSqB(b: JsString, eb: JsString)
    requires b == Js("'b'") && eb == Js("\\'b\\'")
    ensures SqBody(b) == eb
  {
    SqQuotedBText(b, eb, 'b' as int);
    SqBodyQuotedUnit('b' as int);
  }

  lemma SqQuotedBText(b: JsString, eb: JsString, c: CodeUnit)
    requires b == Js("'b'") && eb == Js("\\'b\\'") && c == 'b' as int
    ensures b == [SingleQuote, c, SingleQuote] && eb == [Backslash, SingleQuote, c, Backslash, SingleQuote] && Plain([c])
  {
  }

  /** `"b"` inside double quotes. */
  lemma QuotedDqB(b: JsString, eb: JsString)
    requires b == Js("\"b\"") && eb == Js("\\\"b\\\"")
    ensures QuoteBody(b) == eb
  {
    DqQuotedBText(b, eb, 'b' as int);
    QuoteBodyQuotedUnit('b' as int);
  }

  lemma DqQuotedBText(b: JsString, eb: JsString, c: CodeUnit)
    requires b == Js("\"b\"") && eb == Js("\\\"b\\\"") && c == 'b' as int
    ensures b == [DoubleQuote, c, DoubleQuote] && eb == [Backslash, DoubleQuote, c, Backslash, DoubleQuote] && Plain([c])
  {
  }

  /** `a 'b' c` inside single quotes. */
  lemma SingleQuotesSq(x: JsString, body: JsString)
    requires x == Js("a 'b' c") && body == Js("a \\'b\\' c")
    ensures |x| > 0 && SqBody(x) == body
  {
    var a, b, c, eb := Js("a "), Js("'b'"), Js(" c"), Js("\\'b\\'");
    SingleQuotesSqParts(x, body, a, b, c, eb);
    QuotedSqB(b, eb);
    SqMiddle(x, body, a, b, c, eb);
  }

  lemma SingleQuotesSqParts(x: JsString, body: JsString, a: JsString, b: JsString, c: JsString, eb: JsString)
    requires x == Js("a 'b' c") && body == Js("a \\'b\\' c")
    requires a == Js("a ") && b == Js("'b'") && c == Js(" c") && eb == Js("\\'b\\'")
    ensures x == a + b + c && body == a + eb + c && Plain(a) && Plain(c) && |x| > 0
  {
  }

  /** `a 'b' c` inside double quotes: nothing to escape. */
  lemma SingleQuotesDq(x: JsString)
    requires x == Js("a 'b' c")
    ensures |x| > 0 && QuoteBody(x) == x
  {
    QuoteBodyPlain(x);
  }

  /** `a "b" c` inside double quotes. */
  lemma DoubleQuotesDq(x: JsString, body: JsString)
    requires x == Js("a \"b\" c") && body == Js("a \\\"b\\\" c")
    ensures QuoteBody(x) == body && RawInSingle(x)
  {
    var a, b, c, eb := Js("a "), Js("\"b\""), Js(" c"), Js("\\\"b\\\"");
    DoubleQuotesDqParts(x, body, a, b, c, eb);
    QuotedDqB(b, eb);
    QuoteMiddle(x, body, a, b, c, eb);
  }

  lemma DoubleQuotesDqParts(x: JsString, body: JsString, a: JsString, b: JsString, c: JsString, eb: JsString)
    requires x == Js("a \"b\" c") && body == Js("a \\\"b\\\" c")
    requires a == Js("a ") && b == Js("\"b\"") && c == Js(" c") && eb == Js("\\\"b\\\"")
    ensures x == a + b + c && body == a + eb + c && Plain(a) && Plain(c) && RawInSingle(x)
  {
  }

  /** `"hello"` inside double quotes. */
  lemma HelloDq(x: JsString, y: JsString)
    requires x == Js("\"hello\"") && y == Js("\\\"hello\\\"")
    ensures QuoteBody(x) == y && RawInSingle(x)
  {
    var h := Js("hello");
    HelloParts(x, y, h);
    QuoteAround(x, y, h);
  }

  lemma HelloParts(x: JsString, y: JsString, h: JsString)
    requires x == Js("\"hello\"") && y == Js("\\\"hello\\\"") && h == Js("hello")
    ensures x == [DoubleQuote] + h + [DoubleQuote] && y == [Backslash, DoubleQuote] + h + [Backslash, DoubleQuote]
    ensures Plain(h) && RawInSingle(x)
  {
  }

  /** `a ['b'] c` inside single quotes. */
  lemma BracketedSq(x: JsString, body: JsString)
    requires x == Js("a ['b'] c") && body == Js("a [\\'b\\'] c")
    ensures |x| > 0 && SqBody(x) == body
  {
    var a, b, c, eb := Js("a ["), Js("'b'"), Js("] c"), Js("\\'b\\'");
    BracketedSqParts(x, body, a, b, c, eb);
    QuotedSqB(b, eb);
    SqMiddle(x, body, a, b, c, eb);
  }

  lemma BracketedSqParts(x: JsString, body: JsString, a: JsString, b: JsString, c: JsString, eb: JsString)
    requires x == Js("a ['b'] c") && body == Js("a [\\'b\\'] c")
    requires a == Js("a [") && b == Js("'b'") && c == Js("] c") && eb == Js("\\'b\\'")
    ensures x == a + b + c && body == a + eb + c && Plain(a) && Plain(c) && |x| > 0
  {
  }

  /** `a ["b"] c` inside double quotes. */
  lemma BracketedDq(x: JsString, body: JsString)
    requires x == Js("a [\"b\"] c") && body == Js("a [\\\"b\\\"] c")
    ensures QuoteBody(x) == body
  {
    var a, b, c, eb := Js("a ["), Js("\"b\""), Js("] c"), Js("\\\"b\\\"");
    BracketedDqParts(x, body, a, b, c, eb);
    QuotedDqB(b, eb);
    QuoteMiddle(x, body, a, b, c, eb);
  }

  lemma BracketedDqParts(x: JsString, body: JsString, a: JsString, b: JsString, c: JsString, eb: JsString)
    requires x == Js("a [\"b\"] c") && body == Js("a [\\\"b\\\"] c")
    requires a == Js("a [") && b == Js("\"b\"") && c == Js("] c") && eb == Js("\\\"b\\\"")
    ensures x == a + b + c && body == a + eb + c && Plain(a) && Plain(c)
  {
  }

  // ---------------------------------------------------------------------------
  // quotedStrRe and getString: the inputs cut around their literal
  // ---------------------------------------------------------------------------

  /** `'test'` */
  lemma SqTestText(s: JsString, x: JsString)
    requires s == Js("'test'") && x == Js("test")
    ensures s == [] + ([SingleQuote] + x + [SingleQuote]) + []
  {
  }

  /** `"test"` */
  lemma DqTestText(s: JsString, x: JsString)
    requires s == Js("\"test\"") && x == Js("test")
    ensures s == [] + ([DoubleQuote] + x + [DoubleQuote]) + [] && s == [DoubleQuote] + x + [DoubleQuote]
  {
  }

  /** `'a \'b\' c'` */
  lemma SqSpacedText(s: JsString, body: JsString)
    requires s == Js("'a \\'b\\' c'") && body == Js("a \\'b\\' c")
    ensures s == [] + ([SingleQuote] + body + [SingleQuote]) + []
  {
  }

  /** `"a \"b\" c"` */
  lemma DqSpacedText(s: JsString, body: JsString)
    requires s == Js("\"a \\\"b\\\" c\"") && body == Js("a \\\"b\\\" c")
    ensures s == [] + ([DoubleQuote] + body + [DoubleQuote]) + [] && s == [DoubleQuote] + body + [DoubleQuote]
  {
  }

  /** `--'a \'b\' c'--` */
  lemma SqSpacedDashesText(s: JsString, body: JsString, dashes: JsString)
    requires s == Js("--'a \\'b\\' c'--") && body == Js("a \\'b\\' c") && dashes == Js("--")
    ensures s == dashes + ([SingleQuote] + body + [SingleQuote]) + dashes
    ensures forall k :: 0 <= k < |dashes| ==> !IsQuote(dashes[k])
  {
  }

  /** `--"a \"b\" c"--` */
  lemma DqSpacedDashesText(s: JsString, body: JsString, dashes: JsString)
    requires s == Js("--\"a \\\"b\\\" c\"--") && body == Js("a \\\"b\\\" c") && dashes == Js("--")
    ensures s == dashes + ([DoubleQuote] + body + [DoubleQuote]) + dashes
    ensures forall k :: 0 <= k < |dashes| ==> !IsQuote(dashes[k])
  {
  }

  /** `"a 'b' c"` */
  lemma DqSingleQuotesText(s: JsString, x: JsString)
    requires s == Js("\"a 'b' c\"") && x == Js("a 'b' c")
    ensures s == [] + ([DoubleQuote] + x + [DoubleQuote]) + [] && s == [DoubleQuote] + x + [DoubleQuote]
  {
  }

  /** `--"a 'b' c"--` */
  lemma DqSingleQuotesDashesText(s: JsString, x: JsString, dashes: JsString)
    requires s == Js("--\"a 'b' c\"--") && x == Js("a 'b' c") && dashes == Js("--")
    ensures s == dashes + ([DoubleQuote] + x + [DoubleQuote]) + dashes
    ensures forall k :: 0 <= k < |dashes| ==> !IsQuote(dashes[k])
  {
  }

  /** `'a "b" c'` */
  lemma SqRawText(s: JsString, x: JsString)
    requires s == Js("'a \"b\" c'") && x == Js("a \"b\" c")
    ensures s == [] + ([SingleQuote] + x + [SingleQuote]) + []
  {
  }

  /** `--'a "b" c'--` */
  lemma SqRawDashesText(s: JsString, x: JsString, dashes: JsString)
    requires s == Js("--'a \"b\" c'--") && x == Js("a \"b\" c") && dashes == Js("--")
    ensures s == dashes + ([SingleQuote] + x + [SingleQuote]) + dashes
    ensures forall k :: 0 <= k < |dashes| ==> !IsQuote(dashes[k])
  {
  }

  // ---------------------------------------------------------------------------
  // quotedStrRe
  // ---------------------------------------------------------------------------

  /** A single-quoted literal for `x` after text with no quote: `match[1]` is its body. */
  lemma QsrSingleRow(s: JsString, pre: JsString, x: JsString, body: JsString, post: JsString)
    requires s == pre + ([SingleQuote] + body + [SingleQuote]) + post
    requires forall k :: 0 <= k < |pre| ==> !IsQuote(pre[k])
    requires |x| > 0 && body == SqBody(x)
    ensures QuotedStrMatch(s) == Some(body)
  {
    var lit := [SingleQuote] + body + [SingleQuote];
    assert lit[1..|lit| - 1] == body;
    SqBodyIsBody(x);
    QuotedStrMatchAfter(pre, lit, post);
  }

  /** A double-quoted literal for `x` after text with no quote: `match[2]` is its body. */
  lemma QsrDoubleRow(s: JsString, pre: JsString, x: JsString, body: JsString, post: JsString)
    requires s == pre + ([DoubleQuote] + body + [DoubleQuote]) + post
    requires forall k :: 0 <= k < |pre| ==> !IsQuote(pre[k])
    requires body == QuoteBody(x)
    ensures QuotedStrMatch(s) == Some(body)
  {
    var lit := [DoubleQuote] + body + [DoubleQuote];
    assert lit[1..|lit| - 1] == body;
    QuoteBodyIsBody(x);
    QuotedStrMatchAfter(pre, lit, post);
  }

  lemma QsrUnquoted(s: JsString)
    requires s == Js("test")
    ensures QuotedStrMatch(s) == None
  {
    NoQuotedLiteral(s);
  }

  lemma QsrSingle(s: JsString)
    requires s == Js("'test'")
    ensures QuotedStrMatch(s) == Some(Js("test"))
  {
    var x := Js("test");
    SqTestText(s, x);
    TestText(x);
    QsrSingleRow(s, [], x, x, []);
  }

  lemma QsrDouble(s: JsString)
    requires s == Js("\"test\"")
    ensures QuotedStrMatch(s) == Some(Js("test"))
  {
    var x := Js("test");
    DqTestText(s, x);
    TestText(x);
    QsrDoubleRow(s, [], x, x, []);
  }

  lemma QsrSingleEscaped(s: JsString)
    requires s == Js("'a \\'b\\' c'")
    ensures QuotedStrMatch(s) == Some(Js("a \\'b\\' c"))
  {
    var x, body := Js("a 'b' c"), Js("a \\'b\\' c");
    SqSpacedText(s, body);
    SingleQuotesSq(x, body);
    QsrSingleRow(s, [], x, body, []);
  }

  lemma QsrDoubleEscaped(s: JsString)
    requires s == Js("\"a \\\"b\\\" c\"")
    ensures QuotedStrMatch(s) == Some(Js("a \\\"b\\\" c"))
  {
    var x, body := Js("a \"b\" c"), Js("a \\\"b\\\" c");
    DqSpacedText(s, body);
    DoubleQuotesDq(x, body);
    QsrDoubleRow(s, [], x, body, []);
  }

  lemma QsrSingleExtra(s: JsString)
    requires s == Js("--'a \\'b\\' c'--")
    ensures QuotedStrMatch(s) == Some(Js("a \\'b\\' c"))
  {
    var x, body, dashes := Js("a 'b' c"), Js("a \\'b\\' c"), Js("--");
    SqSpacedDashesText(s, body, dashes);
    SingleQuotesSq(x, body);
    QsrSingleRow(s, dashes, x, body, dashes);
  }

  lemma QsrDoubleExtra(s: JsString)
    requires s == Js("--\"a \\\"b\\\" c\"--")
    ensures QuotedStrMatch(s) == Some(Js("a \\\"b\\\" c"))
  {
    var x, body, dashes := Js("a \"b\" c"), Js("a \\\"b\\\" c"), Js("--");
    DqSpacedDashesText(s, body, dashes);
    DoubleQuotesDq(x, body);
    QsrDoubleRow(s, dashes, x, body, dashes);
  }

  /** The `quotedStrRe` table: the input, and `match[1] || match[2]`, `None` for `undefined`. */
  const QuotedStrReRows: seq<(JsString, Option<JsString>)> := [
    (Js("test"), None),
    (Js("'test'"), Some(Js("test"))),
    (Js("\"test\""), Some(Js("test"))),
    (Js("'a \\'b\\' c'"), Some(Js("a \\'b\\' c"))),
    (Js("\"a \\\"b\\\" c\""), Some(Js("a \\\"b\\\" c"))),
    (Js("--'a \\'b\\' c'--"), Some(Js("a \\'b\\' c"))),
    (Js("--\"a \\\"b\\\" c\"--"), Some(Js("a \\\"b\\\" c")))
  ]

  /** Every row of the `quotedStrRe` table gives the expected capture. */
  lemma QuotedStrReTable()
    ensures forall i :: 0 <= i < |QuotedStrReRows| ==> QuotedStrMatch(QuotedStrReRows[i].0) == QuotedStrReRows[i].1
  {
    forall i | 0 <= i < |QuotedStrReRows|
      ensures QuotedStrMatch(QuotedStrReRows[i].0) == QuotedStrReRows[i].1
    {
      var s := QuotedStrReRows[i].0;
      if i == 0 { QsrUnquoted(s); }
      else if i == 1 { QsrSingle(s); }
      else if i == 2 { QsrDouble(s); }
      else if i == 3 { QsrSingleEscaped(s); }
      else if i == 4 { QsrDoubleEscaped(s); }
      else if i == 5 { QsrSingleExtra(s); }
      else { QsrDoubleExtra(s); }
    }
  }

  // ---------------------------------------------------------------------------
  // escDblQuotes
  // ---------------------------------------------------------------------------

  lemma EscUnescaped(s: JsString)
    requires s == Js("\"hello\"")
    ensures EscDblQuotes(s) == Js("\\\"hello\\\"")
    ensures Parse([DoubleQuote] + Js("\\\"hello\\\"") + [DoubleQuote]) == Some(String(s))
  {
    var e := Js("\\\"hello\\\"");
    HelloDq(s, e);
    EscDblQuotesRaw(s);
    ParseQuote(s);
  }

  lemma EscEscaped(s: JsString)
    requires s == Js("\\\"hello\\\"")
    ensures EscDblQuotes(s) == s
    ensures Parse([DoubleQuote] + s + [DoubleQuote]) == Some(String(Js("\"hello\"")))
  {
    var hello := Js("\"hello\"");
    EscUnescaped(hello);
    EscDblQuotesIdempotent(hello);
  }

  /**
   * The `escDblQuotes` examples: the input, the JSON string body the
   * replacement makes of it, and what `JSON.parse` reads from that body in
   * double quotes.
   */
  const EscDblQuotesRows: seq<(JsString, JsString, JsString)> := [
    (Js("\"hello\""), Js("\\\"hello\\\""), Js("\"hello\"")),
    (Js("\\\"hello\\\""), Js("\\\"hello\\\""), Js("\"hello\""))
  ]

  /** Both `escDblQuotes` examples: escaped or not, the quotes come out escaped once, and parse back to the quotes. */
  lemma EscDblQuotesTable()
    ensures forall i :: 0 <= i < |EscDblQuotesRows| ==>
      && EscDblQuotes(EscDblQuotesRows[i].0) == EscDblQuotesRows[i].1
      && Parse([DoubleQuote] + EscDblQuotesRows[i].1 + [DoubleQuote]) == Some(String(EscDblQuotesRows[i].2))
  {
    forall i | 0 <= i < |EscDblQuotesRows|
      ensures EscDblQuotes(EscDblQuotesRows[i].0) == EscDblQuotesRows[i].1
      ensures Parse([DoubleQuote] + EscDblQuotesRows[i].1 + [DoubleQuote]) == Some(String(EscDblQuotesRows[i].2))
    {
      var s := EscDblQuotesRows[i].0;
      if i == 0 { EscUnescaped(s); } else { EscEscaped(s); }
    }
  }

  // ---------------------------------------------------------------------------
  // getString
  // ---------------------------------------------------------------------------

  /** The table's `parsed` column: `JSON.parse` of what `getString` returns; `None` when it returns nothing or the parse throws. */
  function GetStringParsed(s: JsString): Option<Value> {
    match GetString(s)
    case None => None
    case Some(m) => Parse(m)
  }

  /** A single-quoted literal for `x` after text with no quote. */
  lemma GsSingleRow(s: JsString, pre: JsString, x: JsString, body: JsString, post: JsString, json: JsString)
    requires s == pre + ([SingleQuote] + body + [SingleQuote]) + post
    requires forall k :: 0 <= k < |pre| ==> !IsQuote(pre[k])
    requires body == SqBody(x) && json == [DoubleQuote] + QuoteBody(x) + [DoubleQuote]
    ensures GetString(s) == Some(json) && GetStringParsed(s) == Some(String(x))
  {
    GetStringSingle(pre, x, post);
  }

  /** A double-quoted literal for `x` after text with no quote. */
  lemma GsDoubleRow(s: JsString, pre: JsString, x: JsString, body: JsString, post: JsString, json: JsString)
    requires s == pre + ([DoubleQuote] + body + [DoubleQuote]) + post
    requires forall k :: 0 <= k < |pre| ==> !IsQuote(pre[k])
    requires body == QuoteBody(x) && json == [DoubleQuote] + body + [DoubleQuote]
    ensures GetString(s) == Some(json) && GetStringParsed(s) == Some(String(x))
  {
    GetStringDouble(pre, x, post);
  }

  /** A single-quoted literal holding raw double quotes after text with no quote. */
  lemma GsRawRow(s: JsString, pre: JsString, x: JsString, post: JsString, json: JsString)
    requires s == pre + ([SingleQuote] + x + [SingleQuote]) + post
    requires forall k :: 0 <= k < |pre| ==> !IsQuote(pre[k])
    requires RawInSingle(x)
    requires json == [DoubleQuote] + QuoteBody(x) + [DoubleQuote]
    ensures GetString(s) == Some(json) && GetStringParsed(s) == Some(String(x))
  {
    GetStringRawDoubleQuotes(pre, x, post);
    ParseQuote(x);
  }

  lemma GsUnquoted(s: JsString)
    requires s == Js("test")
    ensures GetString(s) == None && GetStringParsed(s) == None
  {
    NoQuotedLiteral(s);
  }

  lemma GsSingle(s: JsString, json: JsString, x: JsString)
    requires s == Js("'test'") && json == Js("\"test\"") && x == Js("test")
    ensures GetString(s) == Some(json) && GetStringParsed(s) == Some(String(x))
  {
    SqTestText(s, x);
    DqTestText(json, x);
    TestText(x);
    GsSingleRow(s, [], x, x, [], json);
  }

  lemma GsDouble(s: JsString, x: JsString)
    requires s == Js("\"test\"") && x == Js("test")
    ensures GetString(s) == Some(s) && GetStringParsed(s) == Some(String(x))
  {
    DqTestText(s, x);
    TestText(x);
    GsDoubleRow(s, [], x, x, [], s);
  }

  lemma GsSingleEscaped(s: JsString, json: JsString, x: JsString)
    requires s == Js("'a \\'b\\' c'") && json == Js("\"a 'b' c\"") && x == Js("a 'b' c")
    ensures GetString(s) == Some(json) && GetStringParsed(s) == Some(String(x))
  {
    var body := Js("a \\'b\\' c");
    SqSpacedText(s, body);
    DqSingleQuotesText(json, x);
    SingleQuotesSq(x, body);
    SingleQuotesDq(x);
    GsSingleRow(s, [], x, body, [], json);
  }

  lemma GsDoubleEscaped(s: JsString, x: JsString)
    requires s == Js("\"a \\\"b\\\" c\"") && x == Js("a \"b\" c")
    ensures GetString(s) == Some(s) && GetStringParsed(s) == Some(String(x))
  {
    var body := Js("a \\\"b\\\" c");
    DqSpacedText(s, body);
    DoubleQuotesDq(x, body);
    GsDoubleRow(s, [], x, body, [], s);
  }

  lemma GsRawDoubleQuotes(s: JsString, json: JsString, x: JsString)
    requires s == Js("'a \"b\" c'") && json == Js("\"a \\\"b\\\" c\"") && x == Js("a \"b\" c")
    ensures GetString(s) == Some(json) && GetStringParsed(s) == Some(String(x))
  {
    var body := Js("a \\\"b\\\" c");
    SqRawText(s, x);
    DqSpacedText(json, body);
    DoubleQuotesDq(x, body);
    GsRawRow(s, [], x, [], json);
  }

  lemma GsSingleQuotesInDouble(s: JsString, x: JsString)
    requires s == Js("\"a 'b' c\"") && x == Js("a 'b' c")
    ensures GetString(s) == Some(s) && GetStringParsed(s) == Some(String(x))
  {
    DqSingleQuotesText(s, x);
    SingleQuotesDq(x);
    GsDoubleRow(s, [], x, x, [], s);
  }

  lemma GsRawDoubleQuotesExtra(s: JsString, json: JsString, x: JsString)
    requires s == Js("--'a \"b\" c'--") && json == Js("\"a \\\"b\\\" c\"") && x == Js("a \"b\" c")
    ensures GetString(s) == Some(json) && GetStringParsed(s) == Some(String(x))
  {
    var body, dashes := Js("a \\\"b\\\" c"), Js("--");
    SqRawDashesText(s, x, dashes);
    DqSpacedText(json, body);
    DoubleQuotesDq(x, body);
    GsRawRow(s, dashes, x, dashes, json);
  }

  lemma GsSingleQuotesInDoubleExtra(s: JsString, json: JsString, x: JsString)
    requires s == Js("--\"a 'b' c\"--") && json == Js("\"a 'b' c\"") && x == Js("a 'b' c")
    ensures GetString(s) == Some(json) && GetStringParsed(s) == Some(String(x))
  {
    var dashes := Js("--");
    DqSingleQuotesDashesText(s, x, dashes);
    DqSingleQuotesText(json, x);
    SingleQuotesDq(x);
    GsDoubleRow(s, dashes, x, x, dashes, json);
  }

  /** The `getString` table: the input, the JSON string `getString` returns, and what `JSON.parse` reads from it. */
  const GetStringRows: seq<(JsString, Option<JsString>, Option<Value>)> := [
    (Js("test"), None, None),
    (Js("'test'"), Some(Js("\"test\"")), Some(String(Js("test")))),
    (Js("\"test\""), Some(Js("\"test\"")), Some(String(Js("test")))),
    (Js("'a \\'b\\' c'"), Some(Js("\"a 'b' c\"")), Some(String(Js("a 'b' c")))),
    (Js("\"a \\\"b\\\" c\""), Some(Js("\"a \\\"b\\\" c\"")), Some(String(Js("a \"b\" c")))),
    (Js("'a \"b\" c'"), Some(Js("\"a \\\"b\\\" c\"")), Some(String(Js("a \"b\" c")))),
    (Js("\"a 'b' c\""), Some(Js("\"a 'b' c\"")), Some(String(Js("a 'b' c")))),
    (Js("--'a \"b\" c'--"), Some(Js("\"a \\\"b\\\" c\"")), Some(String(Js("a \"b\" c")))),
    (Js("--\"a 'b' c\"--"), Some(Js("\"a 'b' c\"")), Some(String(Js("a 'b' c"))))
  ]

  /** Every row of the `getString` table gives the expected JSON string and parsed value. */
  lemma GetStringTable()
    ensures forall i :: 0 <= i < |GetStringRows| ==>
      GetString(GetStringRows[i].0) == GetStringRows[i].1 && GetStringParsed(GetStringRows[i].0) == GetStringRows[i].2
  {
    forall i | 0 <= i < |GetStringRows|
      ensures GetString(GetStringRows[i].0) == GetStringRows[i].1
      ensures GetStringParsed(GetStringRows[i].0) == GetStringRows[i].2
    {
      var (s, json, parsed) := GetStringRows[i];
      if i == 0 { GsUnquoted(s); }
      else if i == 1 { GsSingle(s, json.value, parsed.value.text); }
      else if i == 2 { GsDouble(s, parsed.value.text); }
      else if i == 3 { GsSingleEscaped(s, json.value, parsed.value.text); }
      else if i == 4 { GsDoubleEscaped(s, parsed.value.text); }
      else if i == 5 { GsRawDoubleQuotes(s, json.value, parsed.value.text); }
      else if i == 6 { GsSingleQuotesInDouble(s, parsed.value.text); }
      else if i == 7 { GsRawDoubleQuotesExtra(s, json.value, parsed.value.text); }
      else { GsSingleQuotesInDoubleExtra(s, json.value, parsed.value.text); }
    }
  }

  // ---------------------------------------------------------------------------
  // identRe
  // ---------------------------------------------------------------------------

  /** An identifier followed by text that does not continue it is what `identRe` reads at the start. */
  lemma IdentRow(s: JsString, ident: JsString, tail: JsString)
    requires s == ident + tail && IsIdentifier(ident) && EndsName(tail)
    ensures IdentAtStart(s) == AtStart(ident)
  {
    var r := IdentAtStart(s).name;
    assert forall k :: 0 <= k < |ident| ==> IsIdentPart(s[k]);
    assert forall k :: 0 <= k < |r| ==> IsIdentPart(s[k]);
    assert |ident| < |s| ==> !IsIdentPart(s[|ident|]);
    assert r == s[..|r|] == ident;
  }

  lemma IdentDollar(s: JsString)
    requires s == Js("$test")
    ensures IdentAtStart(s) == AtStart(s)
  {
    IdentRow(s, s, []);
  }

  /** `"foo"` and `1test`: `identRe` matches at index 1, so the row reads `undefined`. */
  lemma IdentLater(s: JsString)
    requires s == Js("\"foo\"") || s == Js("1test")
    ensures IdentAtStart(s) == Elsewhere
  {
    assert IsIdentStart(s[1]);
  }

  /** `123`, which the table does not list: `identRe` matches nowhere and the expression throws. */
  lemma IdentThrows(s: JsString)
    requires s == Js("123")
    ensures IdentAtStart(s) == Throws
  {
    assert forall k :: 0 <= k < |s| ==> IsDigit(s[k]);
  }

  /** `foo[` */
  lemma FooBracketText(s: JsString, ident: JsString)
    requires s == Js("foo[") && ident == Js("foo")
    ensures s == ident + [OpenBracket] && IsIdentifier(ident)
  {
  }

  lemma IdentBracket(s: JsString, ident: JsString)
    requires s == Js("foo[") && ident == Js("foo")
    ensures IdentAtStart(s) == AtStart(ident)
  {
    FooBracketText(s, ident);
    IdentRow(s, ident, [OpenBracket]);
  }

  /** The `identRe` table: the input, and what the row's expression gives. */
  const IdentRows: seq<(JsString, IdentRead)> := [
    (Js("$test"), AtStart(Js("$test"))),
    (Js("\"foo\""), Elsewhere),
    (Js("1test"), Elsewhere),
    (Js("test1"), AtStart(Js("test1"))),
    (Js("foo["), AtStart(Js("foo")))
  ]

  /** Every row of the `identRe` table gives the expected identifier, or `undefined` for a match past index 0. */
  lemma IdentTable()
    ensures forall i :: 0 <= i < |IdentRows| ==> IdentAtStart(IdentRows[i].0) == IdentRows[i].1
  {
    forall i | 0 <= i < |IdentRows|
      ensures IdentAtStart(IdentRows[i].0) == IdentRows[i].1
    {
      var (s, ident) := IdentRows[i];
      if i == 0 { IdentDollar(s); }
      else if i == 1 || i == 2 { IdentLater(s); }
      else if i == 3 { IdentRow(s, s, []); }
      else { IdentBracket(s, ident.name); }
    }
  }

  // ---------------------------------------------------------------------------
  // readSingleKey and readKeys: the inputs cut into their segments
  // ---------------------------------------------------------------------------

  /** `['test']` */
  lemma BrSqTestText(s: JsString, x: JsString)
    requires s == Js("['test']") && x == Js("test")
    ensures s == [OpenBracket] + ([SingleQuote] + x + [SingleQuote]) + [CloseBracket]
  {
  }

  /** `["test"]` */
  lemma BrDqTestText(s: JsString, x: JsString)
    requires s == Js("[\"test\"]") && x == Js("test")
    ensures s == [OpenBracket] + ([DoubleQuote] + x + [DoubleQuote]) + [CloseBracket]
  {
  }

  /** `['a [\'b\'] c']` */
  lemma BrSqBracketedText(s: JsString, body: JsString)
    requires s == Js("['a [\\'b\\'] c']") && body == Js("a [\\'b\\'] c")
    ensures s == [OpenBracket] + ([SingleQuote] + body + [SingleQuote]) + [CloseBracket]
  {
  }

  /** `["a [\"b\"] c"]` */
  lemma BrDqBracketedText(s: JsString, body: JsString)
    requires s == Js("[\"a [\\\"b\\\"] c\"]") && body == Js("a [\\\"b\\\"] c")
    ensures s == [OpenBracket] + ([DoubleQuote] + body + [DoubleQuote]) + [CloseBracket]
  {
  }

  /** `['a "b" c']` */
  lemma BrSqRawText(s: JsString, x: JsString)
    requires s == Js("['a \"b\" c']") && x == Js("a \"b\" c")
    ensures s == [OpenBracket] + ([SingleQuote] + x + [SingleQuote]) + [CloseBracket] + []
  {
  }

  /** `["a 'b' c"]` */
  lemma BrDqSingleQuotesText(s: JsString, x: JsString)
    requires s == Js("[\"a 'b' c\"]") && x == Js("a 'b' c")
    ensures s == [OpenBracket] + ([DoubleQuote] + x + [DoubleQuote]) + [CloseBracket]
  {
  }

  /** `.foo` and `.bar1` */
  lemma DotNameText(s: JsString, name: JsString)
    requires (s == Js(".foo") && name == Js("foo")) || (s == Js(".bar1") && name == Js("bar1"))
    ensures s == [Period] + name && IsIdentifier(name)
  {
  }

  /** `  .1bar`: whitespace, then a period no identifier follows. */
  lemma SpaceDotDigitText(s: JsString, ws: JsString, rest: JsString)
    requires s == Js("  .1bar") && ws == Js("  ") && rest == Js(".1bar")
    ensures s == ws + rest && |ws| > 0 && AllWs(ws, 0, |ws|)
    ensures |rest| >= 2 && rest[0] == Period && !IsIdentStart(rest[1])
  {
  }

  // ---------------------------------------------------------------------------
  // readSingleKey
  // ---------------------------------------------------------------------------

  /** A bracket whose content starts with neither whitespace nor a literal is no token. */
  lemma BareBracket(s: JsString)
    requires |s| >= 2 && s[0] == OpenBracket && !IsWs(s[1]) && !IsQuote(s[1]) && !IsDigit(s[1])
    ensures LexAt(s, 0).None?
  {
    WsEndUnique(s, 1, 1);
  }

  /** A period that no identifier follows is no token. */
  lemma DotNoName(s: JsString)
    requires |s| >= 2 && s[0] == Period && !IsIdentStart(s[1])
    ensures LexAt(s, 0).None?
  {
  }

  /** Text that starts with whitespace reads no single key: the first token is a space. */
  lemma SpaceFirst(s: JsString)
    requires |s| > 0 && IsWs(s[0])
    ensures ReadSingleKey(s) == Undefined
  {
  }

  /** `['…']` around the single-quoted body of `x`. */
  lemma RskSqRow(s: JsString, x: JsString, body: JsString)
    requires body == SqBody(x) && s == [OpenBracket] + ([SingleQuote] + body + [SingleQuote]) + [CloseBracket]
    ensures ReadSingleKey(s) == Str(x)
  {
    DecodeSqQuote(x);
    assert s == [OpenBracket] + SqQuote(x) + [CloseBracket] + [];
    ReadSingleKeyBracket(SqQuote(x), []);
  }

  /** `["…"]` around the JSON body of `x`. */
  lemma RskDqRow(s: JsString, x: JsString, body: JsString)
    requires body == QuoteBody(x) && s == [OpenBracket] + ([DoubleQuote] + body + [DoubleQuote]) + [CloseBracket]
    ensures ReadSingleKey(s) == Str(x)
  {
    DecodeQuote(x);
    assert s == [OpenBracket] + Quote(x) + [CloseBracket] + [];
    ReadSingleKeyBracket(Quote(x), []);
  }

  /** `.name` on its own. */
  lemma RskNameRow(s: JsString, name: JsString)
    requires IsIdentifier(name) && s == [Period] + name
    ensures ReadSingleKey(s) == Str(name)
  {
    assert s == RenderSegment(Name(name)) + [];
    ReadSingleKeySegment(Name(name), []);
  }

  lemma RskUnquoted(s: JsString)
    requires s == Js("[test]")
    ensures ReadSingleKey(s) == Undefined
  {
    BareBracket(s);
  }

  lemma RskSingle(s: JsString, x: JsString)
    requires s == Js("['test']") && x == Js("test")
    ensures ReadSingleKey(s) == Str(x)
  {
    BrSqTestText(s, x);
    TestText(x);
    RskSqRow(s, x, x);
  }

  lemma RskDouble(s: JsString, x: JsString)
    requires s == Js("[\"test\"]") && x == Js("test")
    ensures ReadSingleKey(s) == Str(x)
  {
    BrDqTestText(s, x);
    TestText(x);
    RskDqRow(s, x, x);
  }

  lemma RskSingleEscaped(s: JsString, x: JsString)
    requires s == Js("['a [\\'b\\'] c']") && x == Js("a ['b'] c")
    ensures ReadSingleKey(s) == Str(x)
  {
    var body := Js("a [\\'b\\'] c");
    BrSqBracketedText(s, body);
    BracketedSq(x, body);
    RskSqRow(s, x, body);
  }

  lemma RskDoubleEscaped(s: JsString, x: JsString)
    requires s == Js("[\"a [\\\"b\\\"] c\"]") && x == Js("a [\"b\"] c")
    ensures ReadSingleKey(s) == Str(x)
  {
    var body := Js("a [\\\"b\\\"] c");
    BrDqBracketedText(s, body);
    BracketedDq(x, body);
    RskDqRow(s, x, body);
  }

  lemma RskRawDoubleQuotes(s: JsString, x: JsString)
    requires s == Js("['a \"b\" c']") && x == Js("a \"b\" c")
    ensures ReadSingleKey(s) == Str(x)
  {
    BrSqRawText(s, x);
    DoubleQuotesDq(x, Js("a \\\"b\\\" c"));
    DecodeRawDoubleQuotes(x);
    ReadSingleKeyBracket([SingleQuote] + x + [SingleQuote], []);
  }

  lemma RskSingleQuotesInDouble(s: JsString, x: JsString)
    requires s == Js("[\"a 'b' c\"]") && x == Js("a 'b' c")
    ensures ReadSingleKey(s) == Str(x)
  {
    BrDqSingleQuotesText(s, x);
    SingleQuotesDq(x);
    RskDqRow(s, x, x);
  }

  lemma RskNum(s: JsString)
    requires s == Js("[3]")
    ensures ReadSingleKey(s) == Num(3)
  {
    assert s == RenderSegment(Index(3)) + [];
    ReadSingleKeySegment(Index(3), []);
  }

  lemma RskNumSpaced(s: JsString)
    requires s == Js("[  3 ]")
    ensures ReadSingleKey(s) == Num(3)
  {
    assert s[3..4] == Decimal(3);
    assert AllWs(s, 1, 3) && AllWs(s, 4, 5);
    LiteralSlice(s, 3, 4);
    BracketComplete(s, 0, 6, 3, 4);
    DecodeDigits(s[3..4], 3);
  }

  /** `.foo` and `.bar1` */
  lemma RskName(s: JsString, name: JsString)
    requires (s == Js(".foo") && name == Js("foo")) || (s == Js(".bar1") && name == Js("bar1"))
    ensures ReadSingleKey(s) == Str(name)
  {
    DotNameText(s, name);
    RskNameRow(s, name);
  }

  lemma RskSpaceFirst(s: JsString)
    requires s == Js("  .1bar")
    ensures ReadSingleKey(s) == Undefined
  {
    SpaceFirst(s);
  }

  /** The `readSingleKey` table: the input and the key it reads. */
  const ReadSingleKeyRows: seq<(JsString, Key)> := ReadSingleKeyRowsQuoted + ReadSingleKeyRowsOther

  const ReadSingleKeyRowsQuoted: seq<(JsString, Key)> := [
    (Js("[test]"), Undefined),
    (Js("['test']"), Str(Js("test"))),
    (Js("[\"test\"]"), Str(Js("test"))),
    (Js("['a [\\'b\\'] c']"), Str(Js("a ['b'] c"))),
    (Js("[\"a [\\\"b\\\"] c\"]"), Str(Js("a [\"b\"] c"))),
    (Js("['a \"b\" c']"), Str(Js("a \"b\" c")))
  ]

  const ReadSingleKeyRowsOther: seq<(JsString, Key)> := [
    (Js("[\"a 'b' c\"]"), Str(Js("a 'b' c"))),
    (Js("[3]"), Num(3)),
    (Js("[  3 ]"), Num(3)),
    (Js(".foo"), Str(Js("foo"))),
    (Js(".bar1"), Str(Js("bar1"))),
    (Js("  .1bar"), Undefined)
  ]

  /** Every row of the `readSingleKey` table gives the expected key. */
  lemma ReadSingleKeyTable()
    ensures forall i :: 0 <= i < |ReadSingleKeyRows| ==> ReadSingleKey(ReadSingleKeyRows[i].0) == ReadSingleKeyRows[i].1
  {
    forall i | 0 <= i < |ReadSingleKeyRows|
      ensures ReadSingleKey(ReadSingleKeyRows[i].0) == ReadSingleKeyRows[i].1
    {
      var (s, k) := ReadSingleKeyRows[i];
      if i == 0 { RskUnquoted(s); }
      else if i == 1 { RskSingle(s, k.text); }
      else if i == 2 { RskDouble(s, k.text); }
      else if i == 3 { RskSingleEscaped(s, k.text); }
      else if i == 4 { RskDoubleEscaped(s, k.text); }
      else if i == 5 { RskRawDoubleQuotes(s, k.text); }
      else if i == 6 { RskSingleQuotesInDouble(s, k.text); }
      else if i == 7 { RskNum(s); }
      else if i == 8 { RskNumSpaced(s); }
      else if i == 9 || i == 10 { RskName(s, k.text); }
      else { RskSpaceFirst(s); }
    }
  }

  // ---------------------------------------------------------------------------
  // Paths of the readKeys and j2ref tables
  // ---------------------------------------------------------------------------

  lemma Path1(a: Segment)
    ensures Render([a]) == RenderSegment(a) && PathKeys([a]) == [SegmentKey(a)]
  {
    assert [a][1..] == [];
  }

  lemma Path2(a: Segment, b: Segment)
    ensures Render([a, b]) == RenderSegment(a) + RenderSegment(b)
    ensures PathKeys([a, b]) == [SegmentKey(a), SegmentKey(b)]
  {
    assert [a, b][1..] == [b];
    Path1(b);
  }

  lemma Path3(a: Segment, b: Segment, c: Segment)
    ensures Render([a, b, c]) == RenderSegment(a) + (RenderSegment(b) + RenderSegment(c))
    ensures PathKeys([a, b, c]) == [SegmentKey(a), SegmentKey(b), SegmentKey(c)]
  {
    assert [a, b, c][1..] == [b, c];
    Path2(b, c);
  }

  lemma Path4(a: Segment, b: Segment, c: Segment, d: Segment)
    ensures Render([a, b, c, d]) == RenderSegment(a) + (RenderSegment(b) + (RenderSegment(c) + RenderSegment(d)))
    ensures PathKeys([a, b, c, d]) == [SegmentKey(a), SegmentKey(b), SegmentKey(c), SegmentKey(d)]
  {
    assert [a, b, c, d][1..] == [b, c, d];
    Path3(b, c, d);
  }

  /** `[n]` for a one-digit `n`. */
  lemma OneDigit(n: nat)
    requires n < 10
    ensures RenderSegment(Index(n)) == [OpenBracket, DigitOf(n), CloseBracket]
  {
  }

  /** `.w.x[3].y` */
  lemma WxText(r: JsString, w: JsString, x: JsString, y: JsString)
    requires r == Js(".w.x[3].y") && w == Js("w") && x == Js("x") && y == Js("y")
    ensures r == ([Period] + w) + (([Period] + x) + ([OpenBracket, DigitOf(3), CloseBracket] + ([Period] + y)))
    ensures IsIdentifier(w) && IsIdentifier(x) && IsIdentifier(y)
  {
  }

  /** `.w.x[3].y` */
  lemma WxPath(r: JsString, w: JsString, x: JsString, y: JsString)
    requires r == Js(".w.x[3].y") && w == Js("w") && x == Js("x") && y == Js("y")
    ensures var path := [Name(w), Name(x), Index(3), Name(y)];
      ValidPath(path) && r == Render(path) && PathKeys(path) == [Str(w), Str(x), Num(3), Str(y)]
  {
    WxText(r, w, x, y);
    OneDigit(3);
    Path4(Name(w), Name(x), Index(3), Name(y));
  }

  /** `[3][1]` */
  lemma NumsText(r: JsString)
    requires r == Js("[3][1]")
    ensures r == [OpenBracket, DigitOf(3), CloseBracket] + [OpenBracket, DigitOf(1), CloseBracket]
  {
  }

  /** `[3][1]` */
  lemma NumsPath(r: JsString)
    requires r == Js("[3][1]")
    ensures r == Render([Index(3), Index(1)]) && PathKeys([Index(3), Index(1)]) == [Num(3), Num(1)]
  {
    NumsText(r);
    OneDigit(3);
    OneDigit(1);
    Path2(Index(3), Index(1));
  }

  /** `['…']` with the single-quoted body of `x`. */
  lemma SqPath(x: JsString, body: JsString)
    requires body == SqBody(x)
    ensures Render([SqProp(x)]) == [OpenBracket] + ([SingleQuote] + body + [SingleQuote]) + [CloseBracket]
    ensures PathKeys([SqProp(x)]) == [Str(x)]
  {
    Path1(SqProp(x));
  }

  /** `["…"]` with the JSON body of `x`. */
  lemma DqPath(x: JsString, body: JsString)
    requires body == QuoteBody(x)
    ensures Render([Prop(x)]) == [OpenBracket] + ([DoubleQuote] + body + [DoubleQuote]) + [CloseBracket]
    ensures PathKeys([Prop(x)]) == [Str(x)]
  {
    Path1(Prop(x));
  }

  /** `.name['…']` with the single-quoted body of `x`. */
  lemma NameSqPath(name: JsString, x: JsString, body: JsString)
    requires body == SqBody(x)
    ensures Render([Name(name), SqProp(x)]) == ([Period] + name) + ([OpenBracket] + ([SingleQuote] + body + [SingleQuote]) + [CloseBracket])
    ensures PathKeys([Name(name), SqProp(x)]) == [Str(name), Str(x)]
  {
    Path2(Name(name), SqProp(x));
  }

  /** `["…"].name` with the JSON body of `x`. */
  lemma DqNamePath(x: JsString, body: JsString, name: JsString)
    requires body == QuoteBody(x)
    ensures Render([Prop(x), Name(name)]) == ([OpenBracket] + ([DoubleQuote] + body + [DoubleQuote]) + [CloseBracket]) + ([Period] + name)
    ensures PathKeys([Prop(x), Name(name)]) == [Str(x), Str(name)]
  {
    Path2(Prop(x), Name(name));
  }

  /** ` xtra` */
  lemma XtraText(t: JsString, ws: JsString, rest: JsString)
    requires t == Js(" xtra") && ws == Js(" ") && rest == Js("xtra")
    ensures t == ws + rest && |ws| > 0 && AllWs(ws, 0, |ws|) && |rest| > 0 && !IsWs(rest[0])
    ensures !IsIdentPart(t[0]) && rest[0] != OpenBracket && rest[0] != Period
  {
  }

  /** ` xtra`: one whitespace token, then text where no token starts. */
  lemma Xtra(t: JsString)
    requires t == Js(" xtra")
    ensures EndsName(t) && ReadKeys(t) == [] && ChainLength(KeyPattern, t) == 1
  {
    var ws, rest := Js(" "), Js("xtra");
    XtraText(t, ws, rest);
    ReadKeysSpace(ws, rest);
    ReadKeysNone(rest);
  }

  // ---------------------------------------------------------------------------
  // readKeys
  // ---------------------------------------------------------------------------

  /** `.foo['test']` */
  lemma NameSqTestText(s: JsString, name: JsString, x: JsString)
    requires s == Js(".foo['test']") && name == Js("foo") && x == Js("test")
    ensures s == ([Period] + name) + ([OpenBracket] + ([SingleQuote] + x + [SingleQuote]) + [CloseBracket])
    ensures IsIdentifier(name)
  {
  }

  /** `["test"].foo` */
  lemma DqTestNameText(s: JsString, x: JsString, name: JsString)
    requires s == Js("[\"test\"].foo") && x == Js("test") && name == Js("foo")
    ensures s == ([OpenBracket] + ([DoubleQuote] + x + [DoubleQuote]) + [CloseBracket]) + ([Period] + name)
    ensures IsIdentifier(name)
  {
  }

  /** `.x['a [\'b\'] c']` */
  lemma NameSqBracketedText(s: JsString, name: JsString, body: JsString)
    requires s == Js(".x['a [\\'b\\'] c']") && name == Js("x") && body == Js("a [\\'b\\'] c")
    ensures s == ([Period] + name) + ([OpenBracket] + ([SingleQuote] + body + [SingleQuote]) + [CloseBracket])
    ensures IsIdentifier(name)
  {
  }

  /** `["a [\"b\"] c"].x` */
  lemma DqBracketedNameText(s: JsString, body: JsString, name: JsString)
    requires s == Js("[\"a [\\\"b\\\"] c\"].x") && body == Js("a [\\\"b\\\"] c") && name == Js("x")
    ensures s == ([OpenBracket] + ([DoubleQuote] + body + [DoubleQuote]) + [CloseBracket]) + ([Period] + name)
    ensures IsIdentifier(name)
  {
  }

  /** A rendered path on its own reads back as its keys. */
  lemma KeysPathRow(s: JsString, path: seq<Segment>, keys: seq<Key>)
    requires ValidPath(path) && s == Render(path) && keys == PathKeys(path)
    ensures ReadKeys(s) == keys
  {
    ScanRender(path, []);
    assert Render(path) + [] == s;
    ReadKeysNone([]);
  }

  /** `.name['…']` with the single-quoted body of `x`. */
  lemma RkNameSqRow(s: JsString, name: JsString, x: JsString, body: JsString)
    requires IsIdentifier(name) && body == SqBody(x)
    requires s == ([Period] + name) + ([OpenBracket] + ([SingleQuote] + body + [SingleQuote]) + [CloseBracket])
    ensures ReadKeys(s) == [Str(name), Str(x)]
  {
    Path2(Name(name), SqProp(x));
    KeysPathRow(s, [Name(name), SqProp(x)], [Str(name), Str(x)]);
  }

  /** `["…"].name` with the JSON body of `x`. */
  lemma RkDqNameRow(s: JsString, x: JsString, body: JsString, name: JsString)
    requires IsIdentifier(name) && body == QuoteBody(x)
    requires s == ([OpenBracket] + ([DoubleQuote] + body + [DoubleQuote]) + [CloseBracket]) + ([Period] + name)
    ensures ReadKeys(s) == [Str(x), Str(name)]
  {
    Path2(Prop(x), Name(name));
    KeysPathRow(s, [Prop(x), Name(name)], [Str(x), Str(name)]);
  }

  /** `["…"]` with the JSON body of `x`, alone. */
  lemma RkDqRow(s: JsString, x: JsString, body: JsString)
    requires body == QuoteBody(x) && s == [OpenBracket] + ([DoubleQuote] + body + [DoubleQuote]) + [CloseBracket]
    ensures ReadKeys(s) == [Str(x)]
  {
    DqPath(x, body);
    KeysPathRow(s, [Prop(x)], [Str(x)]);
  }

  /** `.name` alone. */
  lemma RkNameRow(s: JsString, name: JsString)
    requires IsIdentifier(name) && s == [Period] + name
    ensures ReadKeys(s) == [Str(name)]
  {
    Path1(Name(name));
    KeysPathRow(s, [Name(name)], [Str(name)]);
  }

  /** Whitespace, then text where no token starts: no keys. */
  lemma RkSpaceRow(s: JsString, ws: JsString, rest: JsString)
    requires s == ws + rest && |ws| > 0 && AllWs(ws, 0, |ws|)
    requires |rest| >= 2 && rest[0] == Period && !IsIdentStart(rest[1])
    ensures ReadKeys(s) == []
  {
    DotNoName(rest);
    ReadKeysSpace(ws, rest);
    ReadKeysNone(rest);
  }

  lemma RkUnquoted(s: JsString)
    requires s == Js("[test]")
    ensures ReadKeys(s) == []
  {
    BareBracket(s);
    ReadKeysNone(s);
  }

  lemma RkSingle(s: JsString, name: JsString, x: JsString)
    requires s == Js(".foo['test']") && name == Js("foo") && x == Js("test")
    ensures ReadKeys(s) == [Str(name), Str(x)]
  {
    NameSqTestText(s, name, x);
    TestText(x);
    RkNameSqRow(s, name, x, x);
  }

  lemma RkDouble(s: JsString, x: JsString, name: JsString)
    requires s == Js("[\"test\"].foo") && x == Js("test") && name == Js("foo")
    ensures ReadKeys(s) == [Str(x), Str(name)]
  {
    DqTestNameText(s, x, name);
    TestText(x);
    RkDqNameRow(s, x, x, name);
  }

  lemma RkSingleEscaped(s: JsString, name: JsString, x: JsString)
    requires s == Js(".x['a [\\'b\\'] c']") && name == Js("x") && x == Js("a ['b'] c")
    ensures ReadKeys(s) == [Str(name), Str(x)]
  {
    var body := Js("a [\\'b\\'] c");
    NameSqBracketedText(s, name, body);
    BracketedSq(x, body);
    RkNameSqRow(s, name, x, body);
  }

  lemma RkDoubleEscaped(s: JsString, x: JsString, name: JsString)
    requires s == Js("[\"a [\\\"b\\\"] c\"].x") && x == Js("a [\"b\"] c") && name == Js("x")
    ensures ReadKeys(s) == [Str(x), Str(name)]
  {
    var body := Js("a [\\\"b\\\"] c");
    DqBracketedNameText(s, body, name);
    BracketedDq(x, body);
    RkDqNameRow(s, x, body, name);
  }

  lemma RkRawDoubleQuotes(s: JsString, x: JsString)
    requires s == Js("['a \"b\" c']") && x == Js("a \"b\" c")
    ensures ReadKeys(s) == [Str(x)]
  {
    var lit := [SingleQuote] + x + [SingleQuote];
    BrSqRawText(s, x);
    DoubleQuotesDq(x, Js("a \\\"b\\\" c"));
    DecodeRawDoubleQuotes(x);
    ReadKeysBracket(lit, []);
    ReadKeysNone([]);
  }

  lemma RkSingleQuotesInDouble(s: JsString, x: JsString)
    requires s == Js("[\"a 'b' c\"]") && x == Js("a 'b' c")
    ensures ReadKeys(s) == [Str(x)]
  {
    BrDqSingleQuotesText(s, x);
    SingleQuotesDq(x);
    RkDqRow(s, x, x);
  }

  lemma RkNums(s: JsString)
    requires s == Js("[3][1]")
    ensures ReadKeys(s) == [Num(3), Num(1)]
  {
    NumsPath(s);
    KeysPathRow(s, [Index(3), Index(1)], [Num(3), Num(1)]);
  }

  lemma RkPath(s: JsString, w: JsString, x: JsString, y: JsString)
    requires s == Js(".w.x[3].y") && w == Js("w") && x == Js("x") && y == Js("y")
    ensures ReadKeys(s) == [Str(w), Str(x), Num(3), Str(y)]
  {
    WxPath(s, w, x, y);
    KeysPathRow(s, [Name(w), Name(x), Index(3), Name(y)], [Str(w), Str(x), Num(3), Str(y)]);
  }

  /** `.foo` and `.bar1` */
  lemma RkName(s: JsString, name: JsString)
    requires (s == Js(".foo") && name == Js("foo")) || (s == Js(".bar1") && name == Js("bar1"))
    ensures ReadKeys(s) == [Str(name)]
  {
    DotNameText(s, name);
    RkNameRow(s, name);
  }

  lemma RkSpaceFirst(s: JsString)
    requires s == Js("  .1bar")
    ensures ReadKeys(s) == []
  {
    var ws, rest := Js("  "), Js(".1bar");
    SpaceDotDigitText(s, ws, rest);
    RkSpaceRow(s, ws, rest);
  }

  /** The `readKeys` table: the input and the keys it reads. */
  const ReadKeysRows: seq<(JsString, seq<Key>)> := ReadKeysRowsQuoted + ReadKeysRowsPaths

  const ReadKeysRowsQuoted: seq<(JsString, seq<Key>)> := [
    (Js("[test]"), []),
    (Js(".foo['test']"), [Str(Js("foo")), Str(Js("test"))]),
    (Js("[\"test\"].foo"), [Str(Js("test")), Str(Js("foo"))]),
    (Js(".x['a [\\'b\\'] c']"), [Str(Js("x")), Str(Js("a ['b'] c"))]),
    (Js("[\"a [\\\"b\\\"] c\"].x"), [Str(Js("a [\"b\"] c")), Str(Js("x"))]),
    (Js("['a \"b\" c']"), [Str(Js("a \"b\" c"))])
  ]

  const ReadKeysRowsPaths: seq<(JsString, seq<Key>)> := [
    (Js("[\"a 'b' c\"]"), [Str(Js("a 'b' c"))]),
    (Js("[3][1]"), [Num(3), Num(1)]),
    (Js(".w.x[3].y"), [Str(Js("w")), Str(Js("x")), Num(3), Str(Js("y"))]),
    (Js(".foo"), [Str(Js("foo"))]),
    (Js(".bar1"), [Str(Js("bar1"))]),
    (Js("  .1bar"), [])
  ]

  /** Every row of the `readKeys` table gives the expected keys. */
  lemma ReadKeysTable()
    ensures forall i :: 0 <= i < |ReadKeysRows| ==> ReadKeys(ReadKeysRows[i].0) == ReadKeysRows[i].1
  {
    forall i | 0 <= i < |ReadKeysRows|
      ensures ReadKeys(ReadKeysRows[i].0) == ReadKeysRows[i].1
    {
      var (s, k) := ReadKeysRows[i];
      if i == 0 { RkUnquoted(s); }
      else if i == 1 { RkSingle(s, k[0].text, k[1].text); }
      else if i == 2 { RkDouble(s, k[0].text, k[1].text); }
      else if i == 3 { RkSingleEscaped(s, k[0].text, k[1].text); }
      else if i == 4 { RkDoubleEscaped(s, k[0].text, k[1].text); }
      else if i == 5 { RkRawDoubleQuotes(s, k[0].text); }
      else if i == 6 { RkSingleQuotesInDouble(s, k[0].text); }
      else if i == 7 { RkNums(s); }
      else if i == 8 { RkPath(s, k[0].text, k[1].text, k[3].text); }
      else if i == 9 || i == 10 { RkName(s, k[0].text); }
      else { RkSpaceFirst(s); }
    }
  }

  // ---------------------------------------------------------------------------
  // j2ref: the inputs cut into the identifier, the path and the tail
  // ---------------------------------------------------------------------------

  /** `foo[test]` */
  lemma FooBareText(s: JsString, ident: JsString, tail: JsString)
    requires s == Js("foo[test]") && ident == Js("foo") && tail == Js("[test]")
    ensures s == ident + tail && IsIdentifier(ident)
  {
  }

  /** `foo['test']` */
  lemma FooSqTestText(s: JsString, ident: JsString, x: JsString)
    requires s == Js("foo['test']") && ident == Js("foo") && x == Js("test")
    ensures s == ident + ([OpenBracket] + ([SingleQuote] + x + [SingleQuote]) + [CloseBracket]) && IsIdentifier(ident)
  {
  }

  /** `$["test"].foo xtra` */
  lemma DollarDqTestNameXtraText(s: JsString, ident: JsString, x: JsString, name: JsString, r: JsString, xtra: JsString)
    requires s == Js("$[\"test\"].foo xtra") && ident == Js("$") && x == Js("test") && name == Js("foo") && xtra == Js(" xtra")
    requires r == ([OpenBracket] + ([DoubleQuote] + x + [DoubleQuote]) + [CloseBracket]) + ([Period] + name)
    ensures s == ident + r + xtra && IsIdentifier(ident) && IsIdentifier(name)
  {
  }

  /** `$["test"].foo `, the part of `$["test"].foo xtra` that is matched */
  lemma DollarDqTestNameMatchedText(matched: JsString, ident: JsString, x: JsString, name: JsString, r: JsString, xtra: JsString)
    requires matched == Js("$[\"test\"].foo ") && ident == Js("$") && x == Js("test") && name == Js("foo") && xtra == Js(" xtra")
    requires r == ([OpenBracket] + ([DoubleQuote] + x + [DoubleQuote]) + [CloseBracket]) + ([Period] + name)
    ensures matched == ident + r + xtra[..1]
  {
  }

  /** `$.x['a [\'b\'] c']` */
  lemma DollarNameSqBracketedText(s: JsString, ident: JsString, name: JsString, body: JsString)
    requires s == Js("$.x['a [\\'b\\'] c']") && ident == Js("$") && name == Js("x") && body == Js("a [\\'b\\'] c")
    ensures s == ident + (([Period] + name) + ([OpenBracket] + ([SingleQuote] + body + [SingleQuote]) + [CloseBracket]))
    ensures IsIdentifier(ident) && IsIdentifier(name)
  {
  }

  /** `q1["a [\"b\"] c"].x` */
  lemma Q1DqBracketedNameText(s: JsString, ident: JsString, body: JsString, name: JsString)
    requires s == Js("q1[\"a [\\\"b\\\"] c\"].x") && ident == Js("q1") && body == Js("a [\\\"b\\\"] c") && name == Js("x")
    ensures s == ident + (([OpenBracket] + ([DoubleQuote] + body + [DoubleQuote]) + [CloseBracket]) + ([Period] + name))
    ensures IsIdentifier(ident) && IsIdentifier(name)
  {
  }

  /** `$['a "b" c']` */
  lemma DollarSqRawText(s: JsString, ident: JsString, x: JsString)
    requires s == Js("$['a \"b\" c']") && ident == Js("$") && x == Js("a \"b\" c")
    ensures s == ident + ([OpenBracket] + ([SingleQuote] + x + [SingleQuote]) + [CloseBracket]) && IsIdentifier(ident)
  {
  }

  /** `$["a 'b' c"]` */
  lemma DollarDqSingleQuotesText(s: JsString, ident: JsString, x: JsString)
    requires s == Js("$[\"a 'b' c\"]") && ident == Js("$") && x == Js("a 'b' c")
    ensures s == ident + ([OpenBracket] + ([DoubleQuote] + x + [DoubleQuote]) + [CloseBracket]) && IsIdentifier(ident)
  {
  }

  /** `$[3][1] xtra` */
  lemma DollarNumsXtraText(s: JsString, ident: JsString, matched: JsString, r: JsString, xtra: JsString)
    requires s == Js("$[3][1] xtra") && ident == Js("$") && matched == Js("$[3][1] ")
    requires r == Js("[3][1]") && xtra == Js(" xtra")
    ensures s == ident + r + xtra && matched == ident + r + xtra[..1] && IsIdentifier(ident)
  {
  }

  /** `$.w.x[3].y xtra` */
  lemma DollarWxXtraText(s: JsString, ident: JsString, matched: JsString, r: JsString, xtra: JsString)
    requires s == Js("$.w.x[3].y xtra") && ident == Js("$") && matched == Js("$.w.x[3].y ")
    requires r == Js(".w.x[3].y") && xtra == Js(" xtra")
    ensures s == ident + r + xtra && matched == ident + r + xtra[..1] && IsIdentifier(ident)
  {
  }

  // ---------------------------------------------------------------------------
  // j2ref
  // ---------------------------------------------------------------------------

  /**
   * An identifier, the text `r` of a path, then a tail where the chain reads
   * no key and covers `n` code units: the identifier and the path's keys, with
   * the match running `n` units into the tail.
   */
  lemma J2refTailRow(s: JsString, ident: JsString, r: JsString, path: seq<Segment>, tail: JsString, n: nat, keys: seq<Key>, matched: JsString)
    requires IsIdentifier(ident) && ValidPath(path) && r == Render(path) && EndsName(tail)
    requires ReadKeys(tail) == [] && ChainLength(KeyPattern, tail) == n
    requires s == ident + r + tail
    requires keys == [Str(ident)] + PathKeys(path) && matched == ident + r + tail[..n]
    ensures J2ref(s, 0, true) == Some(Reference(keys, 0, matched))
  {
    J2refRender(ident, path, tail);
    assert [Str(ident)] + PathKeys(path) + [] == keys;
  }

  /** The same with nothing after the path: the whole text is matched. */
  lemma J2refWholeRow(s: JsString, ident: JsString, r: JsString, path: seq<Segment>, keys: seq<Key>)
    requires IsIdentifier(ident) && ValidPath(path) && r == Render(path)
    requires s == ident + r && keys == [Str(ident)] + PathKeys(path)
    ensures J2ref(s, 0, true) == Some(Reference(keys, 0, s))
  {
    ReadKeysNone([]);
    assert s == ident + r + [] == ident + r + [][..0];
    J2refTailRow(s, ident, r, path, [], 0, keys, s);
  }

  /** An identifier followed by text where no key token starts: the identifier alone. */
  lemma J2refNameRow(s: JsString, ident: JsString, tail: JsString)
    requires IsIdentifier(ident) && EndsName(tail) && LexAt(tail, 0).None? && s == ident + tail
    ensures J2ref(s, 0, true) == Some(Reference([Str(ident)], 0, ident))
  {
    ReadKeysNone(tail);
    J2refIdent(ident, tail);
    assert [Str(ident)] + [] == [Str(ident)];
    assert ident + tail[..0] == ident;
  }

  /** An identifier and `['…']` with the single-quoted body of `x`. */
  lemma J2SqRow(s: JsString, ident: JsString, x: JsString, body: JsString)
    requires IsIdentifier(ident) && body == SqBody(x)
    requires s == ident + ([OpenBracket] + ([SingleQuote] + body + [SingleQuote]) + [CloseBracket])
    ensures J2ref(s, 0, true) == Some(Reference([Str(ident), Str(x)], 0, s))
  {
    SqPath(x, body);
    J2refWholeRow(s, ident, Render([SqProp(x)]), [SqProp(x)], [Str(ident), Str(x)]);
  }

  /** An identifier and `["…"]` with the JSON body of `x`. */
  lemma J2DqRow(s: JsString, ident: JsString, x: JsString, body: JsString)
    requires IsIdentifier(ident) && body == QuoteBody(x)
    requires s == ident + ([OpenBracket] + ([DoubleQuote] + body + [DoubleQuote]) + [CloseBracket])
    ensures J2ref(s, 0, true) == Some(Reference([Str(ident), Str(x)], 0, s))
  {
    DqPath(x, body);
    J2refWholeRow(s, ident, Render([Prop(x)]), [Prop(x)], [Str(ident), Str(x)]);
  }

  /** An identifier, `.name` and `['…']` with the single-quoted body of `x`. */
  lemma J2NameSqRow(s: JsString, ident: JsString, name: JsString, x: JsString, body: JsString)
    requires IsIdentifier(ident) && IsIdentifier(name) && body == SqBody(x)
    requires s == ident + (([Period] + name) + ([OpenBracket] + ([SingleQuote] + body + [SingleQuote]) + [CloseBracket]))
    ensures J2ref(s, 0, true) == Some(Reference([Str(ident), Str(name), Str(x)], 0, s))
  {
    var path := [Name(name), SqProp(x)];
    NameSqPath(name, x, body);
    J2refWholeRow(s, ident, Render(path), path, [Str(ident), Str(name), Str(x)]);
  }

  /** An identifier, `["…"]` with the JSON body of `x` and `.name`, and nothing after. */
  lemma J2DqNameWholeRow(s: JsString, ident: JsString, x: JsString, body: JsString, name: JsString)
    requires IsIdentifier(ident) && IsIdentifier(name) && body == QuoteBody(x)
    requires s == ident + (([OpenBracket] + ([DoubleQuote] + body + [DoubleQuote]) + [CloseBracket]) + ([Period] + name))
    ensures J2ref(s, 0, true) == Some(Reference([Str(ident), Str(x), Str(name)], 0, s))
  {
    var path := [Prop(x), Name(name)];
    var keys := [Str(ident), Str(x), Str(name)];
    DqNamePath(x, body, name);
    var r := Render(path);
    assert s == ident + r;
    assert keys == [Str(ident)] + PathKeys(path);
    J2refWholeRow(s, ident, r, path, keys);
  }

  /** An identifier and a bracket around a literal that decodes to `x`, and nothing after. */
  lemma J2refRawRow(s: JsString, ident: JsString, x: JsString, lit: JsString, r: JsString)
    requires IsIdentifier(ident) && IsLiteral(lit) && DecodeLiteral(lit) == Str(x)
    requires r == [OpenBracket] + lit + [CloseBracket] && s == ident + r
    ensures J2ref(s, 0, true) == Some(Reference([Str(ident), Str(x)], 0, s))
  {
    ReadKeysNone([]);
    J2refBracket(ident, lit, []);
    assert s == ident + r + [] == ident + r + [][..0];
    assert [Str(ident)] + [DecodeLiteral(lit)] + [] == [Str(ident), Str(x)];
  }

  lemma J2Unquoted(s: JsString)
    requires s == Js("[test]")
    ensures J2ref(s, 0, true) == None
  {
    J2refDefined(s, 0);
  }

  lemma J2UnquotedAfterName(s: JsString, ident: JsString)
    requires s == Js("foo[test]") && ident == Js("foo")
    ensures J2ref(s, 0, true) == Some(Reference([Str(ident)], 0, ident))
  {
    var tail := Js("[test]");
    FooBareText(s, ident, tail);
    BareBracket(tail);
    J2refNameRow(s, ident, tail);
  }

  lemma J2Single(s: JsString, ident: JsString, x: JsString)
    requires s == Js("foo['test']") && ident == Js("foo") && x == Js("test")
    ensures J2ref(s, 0, true) == Some(Reference([Str(ident), Str(x)], 0, s))
  {
    FooSqTestText(s, ident, x);
    TestText(x);
    J2SqRow(s, ident, x, x);
  }

  lemma J2DoubleXtra(s: JsString, ident: JsString, x: JsString, name: JsString, matched: JsString)
    requires s == Js("$[\"test\"].foo xtra") && ident == Js("$") && x == Js("test") && name == Js("foo")
    requires matched == Js("$[\"test\"].foo ")
    ensures J2ref(s, 0, true) == Some(Reference([Str(ident), Str(x), Str(name)], 0, matched))
  {
    var xtra := Js(" xtra");
    var r := ([OpenBracket] + ([DoubleQuote] + x + [DoubleQuote]) + [CloseBracket]) + ([Period] + name);
    DollarDqTestNameXtraText(s, ident, x, name, r, xtra);
    DollarDqTestNameMatchedText(matched, ident, x, name, r, xtra);
    TestText(x);
    Xtra(xtra);
    DqNamePath(x, x, name);
    J2refTailRow(s, ident, r, [Prop(x), Name(name)], xtra, 1, [Str(ident), Str(x), Str(name)], matched);
  }

  lemma J2SingleEscaped(s: JsString, ident: JsString, name: JsString, x: JsString)
    requires s == Js("$.x['a [\\'b\\'] c']") && ident == Js("$") && name == Js("x") && x == Js("a ['b'] c")
    ensures J2ref(s, 0, true) == Some(Reference([Str(ident), Str(name), Str(x)], 0, s))
  {
    var body := Js("a [\\'b\\'] c");
    DollarNameSqBracketedText(s, ident, name, body);
    BracketedSq(x, body);
    J2NameSqRow(s, ident, name, x, body);
  }

  lemma J2DoubleEscaped(s: JsString, ident: JsString, x: JsString, name: JsString)
    requires s == Js("q1[\"a [\\\"b\\\"] c\"].x") && ident == Js("q1") && x == Js("a [\"b\"] c") && name == Js("x")
    ensures J2ref(s, 0, true) == Some(Reference([Str(ident), Str(x), Str(name)], 0, s))
  {
    var body := Js("a [\\\"b\\\"] c");
    Q1DqBracketedNameText(s, ident, body, name);
    BracketedDq(x, body);
    J2DqNameWholeRow(s, ident, x, body, name);
  }

  lemma J2RawDoubleQuotes(s: JsString, ident: JsString, x: JsString)
    requires s == Js("$['a \"b\" c']") && ident == Js("$") && x == Js("a \"b\" c")
    ensures J2ref(s, 0, true) == Some(Reference([Str(ident), Str(x)], 0, s))
  {
    var lit := [SingleQuote] + x + [SingleQuote];
    DollarSqRawText(s, ident, x);
    DoubleQuotesDq(x, Js("a \\\"b\\\" c"));
    DecodeRawDoubleQuotes(x);
    J2refRawRow(s, ident, x, lit, [OpenBracket] + lit + [CloseBracket]);
  }

  lemma J2SingleQuotesInDouble(s: JsString, ident: JsString, x: JsString)
    requires s == Js("$[\"a 'b' c\"]") && ident == Js("$") && x == Js("a 'b' c")
    ensures J2ref(s, 0, true) == Some(Reference([Str(ident), Str(x)], 0, s))
  {
    DollarDqSingleQuotesText(s, ident, x);
    SingleQuotesDq(x);
    J2DqRow(s, ident, x, x);
  }

  lemma J2NumsXtra(s: JsString, ident: JsString, matched: JsString)
    requires s == Js("$[3][1] xtra") && ident == Js("$") && matched == Js("$[3][1] ")
    ensures J2ref(s, 0, true) == Some(Reference([Str(ident), Num(3), Num(1)], 0, matched))
  {
    var r, xtra := Js("[3][1]"), Js(" xtra");
    DollarNumsXtraText(s, ident, matched, r, xtra);
    NumsPath(r);
    Xtra(xtra);
    J2refTailRow(s, ident, r, [Index(3), Index(1)], xtra, 1, [Str(ident), Num(3), Num(1)], matched);
  }

  lemma J2PathXtra(s: JsString, ident: JsString, w: JsString, x: JsString, y: JsString, matched: JsString)
    requires s == Js("$.w.x[3].y xtra") && ident == Js("$") && w == Js("w") && x == Js("x") && y == Js("y")
    requires matched == Js("$.w.x[3].y ")
    ensures J2ref(s, 0, true) == Some(Reference([Str(ident), Str(w), Str(x), Num(3), Str(y)], 0, matched))
  {
    var r, xtra := Js(".w.x[3].y"), Js(" xtra");
    DollarWxXtraText(s, ident, matched, r, xtra);
    WxPath(r, w, x, y);
    Xtra(xtra);
    J2refTailRow(s, ident, r, [Name(w), Name(x), Index(3), Name(y)], xtra, 1, [Str(ident), Str(w), Str(x), Num(3), Str(y)], matched);
  }

  /** `foo` and `bar1` */
  lemma J2Ident(s: JsString)
    requires s == Js("foo") || s == Js("bar1")
    ensures J2ref(s, 0, true) == Some(Reference([Str(s)], 0, s))
  {
    assert s == s + [];
    J2refNameRow(s, s, []);
  }

  lemma J2SpaceDigit(s: JsString)
    requires s == Js("  1bar")
    ensures J2ref(s, 0, true) == None
  {
    WsEndUnique(s, 0, 2);
    J2refDefined(s, 0);
  }

  /**
   * The `j2ref` table, called with the default `startIndex` 0 and
   * `matchStart` true: the input and the object returned, `None` for
   * `undefined`.
   */
  const J2refRows: seq<(JsString, Option<Reference>)> := J2refRowsNames + J2refRowsQuoted + J2refRowsPaths

  const J2refRowsNames: seq<(JsString, Option<Reference>)> := [
    (Js("[test]"), None),
    (Js("foo[test]"), Some(Reference([Str(Js("foo"))], 0, Js("foo")))),
    (Js("foo['test']"), Some(Reference([Str(Js("foo")), Str(Js("test"))], 0, Js("foo['test']")))),
    (Js("$[\"test\"].foo xtra"), Some(Reference([Str(Js("$")), Str(Js("test")), Str(Js("foo"))], 0, Js("$[\"test\"].foo "))))
  ]

  const J2refRowsQuoted: seq<(JsString, Option<Reference>)> := [
    (Js("$.x['a [\\'b\\'] c']"), Some(Reference([Str(Js("$")), Str(Js("x")), Str(Js("a ['b'] c"))], 0, Js("$.x['a [\\'b\\'] c']")))),
    (Js("q1[\"a [\\\"b\\\"] c\"].x"), Some(Reference([Str(Js("q1")), Str(Js("a [\"b\"] c")), Str(Js("x"))], 0, Js("q1[\"a [\\\"b\\\"] c\"].x")))),
    (Js("$['a \"b\" c']"), Some(Reference([Str(Js("$")), Str(Js("a \"b\" c"))], 0, Js("$['a \"b\" c']")))),
    (Js("$[\"a 'b' c\"]"), Some(Reference([Str(Js("$")), Str(Js("a 'b' c"))], 0, Js("$[\"a 'b' c\"]"))))
  ]

  const J2refRowsPaths: seq<(JsString, Option<Reference>)> := [
    (Js("$[3][1] xtra"), Some(Reference([Str(Js("$")), Num(3), Num(1)], 0, Js("$[3][1] ")))),
    (Js("$.w.x[3].y xtra"), Some(Reference([Str(Js("$")), Str(Js("w")), Str(Js("x")), Num(3), Str(Js("y"))], 0, Js("$.w.x[3].y ")))),
    (Js("foo"), Some(Reference([Str(Js("foo"))], 0, Js("foo")))),
    (Js("bar1"), Some(Reference([Str(Js("bar1"))], 0, Js("bar1")))),
    (Js("  1bar"), None)
  ]

  /** Every row of the `j2ref` table gives the expected keys, index and matched text. */
  lemma J2refTable()
    ensures forall i :: 0 <= i < |J2refRows| ==> J2ref(J2refRows[i].0, 0, true) == J2refRows[i].1
  {
    forall i | 0 <= i < |J2refRows|
      ensures J2ref(J2refRows[i].0, 0, true) == J2refRows[i].1
    {
      var (s, r) := J2refRows[i];
      if i == 0 { J2Unquoted(s); }
      else if i == 1 { J2UnquotedAfterName(s, r.value.matched); }
      else if i == 2 { J2Single(s, r.value.keys[0].text, r.value.keys[1].text); }
      else if i == 3 {
        var k := r.value.keys;
        J2DoubleXtra(s, k[0].text, k[1].text, k[2].text, r.value.matched);
      }
      else if i == 4 { J2SingleEscaped(s, r.value.keys[0].text, r.value.keys[1].text, r.value.keys[2].text); }
      else if i == 5 { J2DoubleEscaped(s, r.value.keys[0].text, r.value.keys[1].text, r.value.keys[2].text); }
      else if i == 6 { J2RawDoubleQuotes(s, r.value.keys[0].text, r.value.keys[1].text); }
      else if i == 7 { J2SingleQuotesInDouble(s, r.value.keys[0].text, r.value.keys[1].text); }
      else if i == 8 { J2NumsXtra(s, r.value.keys[0].text, r.value.matched); }
      else if i == 9 {
        var k := r.value.keys;
        J2PathXtra(s, k[0].text, k[1].text, k[2].text, k[4].text, r.value.matched);
      }
      else if i == 10 || i == 11 { J2Ident(s); }
      else { J2SpaceDigit(s); }
    }
  }
}
