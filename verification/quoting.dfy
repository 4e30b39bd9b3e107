/**
 * Quoted literals: the rewrite that turns a single-quoted literal into a JSON
 * string, and the quoted-string search that `getString` and `quotedStrRe`
 * perform.
 *
 * The rewrite is two global replacements on the literal's body:
 * `replace(/\\?"/g, '\\"')` (`EscDblQuotes`) and then `replace(/\\'/g, "'")`
 * (`UnescSingle`). A global replacement scans from the left, replaces the
 * leftmost match and continues after it; `\\?"` prefers the two-unit match
 * `\"` to the bare `"`. Both are modelled as left-to-right rewrites.
 */
module Quoting {
  import opened Text
  import opened Lexer
  import opened Json

  // ---------------------------------------------------------------------------
  // replace(/\\?"/g, '\\"')
  // ---------------------------------------------------------------------------

  /** `s.replace(/\\?"/g, '\\"')`: every double quote, escaped or not, comes out escaped. */
  function EscDblQuotes(s: JsString): (r: JsString)
    ensures |r| >= |s|
    ensures |r| == 0 || r[0] != DoubleQuote
    decreases |s|
  {
    if |s| == 0 then []
    else if |s| >= 2 && s[0] == Backslash && s[1] == DoubleQuote then [Backslash, DoubleQuote] + EscDblQuotes(s[2..])
    else if s[0] == DoubleQuote then [Backslash, DoubleQuote] + EscDblQuotes(s[1..])
    else [s[0]] + EscDblQuotes(s[1..])
  }

  /** Every double quote of `t` directly follows a backslash. */
  predicate QuotesEscaped(t: JsString) {
    forall k :: 0 <= k < |t| && t[k] == DoubleQuote ==> 0 < k && t[k - 1] == Backslash
  }

  lemma QuotesEscapedAppend(a: JsString, b: JsString)
    requires QuotesEscaped(a) && QuotesEscaped(b)
    ensures QuotesEscaped(a + b)
  {
    var t := a + b;
    forall k | 0 <= k < |t| && t[k] == DoubleQuote ensures 0 < k && t[k - 1] == Backslash {
      if k >= |a| {
        assert b[k - |a|] == DoubleQuote;
      }
    }
  }

  /** The output of `EscDblQuotes` has every double quote escaped. */
  lemma {:induction false} EscDblQuotesEscapes(s: JsString)
    ensures QuotesEscaped(EscDblQuotes(s))
    decreases |s|
  {
    if |s| > 0 {
      if |s| >= 2 && s[0] == Backslash && s[1] == DoubleQuote {
        EscDblQuotesEscapes(s[2..]);
        QuotesEscapedAppend([Backslash, DoubleQuote], EscDblQuotes(s[2..]));
      } else if s[0] == DoubleQuote {
        EscDblQuotesEscapes(s[1..]);
        QuotesEscapedAppend([Backslash, DoubleQuote], EscDblQuotes(s[1..]));
      } else {
        EscDblQuotesEscapes(s[1..]);
        QuotesEscapedAppend([s[0]], EscDblQuotes(s[1..]));
      }
    }
  }

  /** A text whose double quotes are all escaped is left as it is. */
  lemma {:induction false} EscDblQuotesFixes(t: JsString)
    requires QuotesEscaped(t)
    ensures EscDblQuotes(t) == t
    decreases |t|
  {
    if |t| > 0 {
      assert t[0] != DoubleQuote;
      if |t| >= 2 && t[0] == Backslash && t[1] == DoubleQuote {
        var u := t[2..];
        forall k | 0 <= k < |u| && u[k] == DoubleQuote ensures 0 < k && u[k - 1] == Backslash {
          assert t[k + 2] == DoubleQuote;
        }
        EscDblQuotesFixes(u);
        assert t == [Backslash, DoubleQuote] + u;
      } else {
        var u := t[1..];
        forall k | 0 <= k < |u| && u[k] == DoubleQuote ensures 0 < k && u[k - 1] == Backslash {
          assert t[k + 1] == DoubleQuote;
        }
        EscDblQuotesFixes(u);
        assert t == [t[0]] + u;
      }
    }
  }

  /** `EscDblQuotes` leaves exactly the texts with escaped double quotes unchanged, so it is idempotent. */
  lemma EscDblQuotesIdempotent(s: JsString)
    ensures EscDblQuotes(EscDblQuotes(s)) == EscDblQuotes(s)
    ensures EscDblQuotes(s) == s <==> QuotesEscaped(s)
  {
    EscDblQuotesEscapes(s);
    EscDblQuotesFixes(EscDblQuotes(s));
    if QuotesEscaped(s) {
      EscDblQuotesFixes(s);
    }
  }

  /** `t` with the backslash of every `\"` dropped, read from the left. */
  function DropQuoteEscapes(t: JsString): (r: JsString)
    ensures |r| <= |t|
    decreases |t|
  {
    if |t| == 0 then []
    else if |t| >= 2 && t[0] == Backslash && t[1] == DoubleQuote then [DoubleQuote] + DropQuoteEscapes(t[2..])
    else [t[0]] + DropQuoteEscapes(t[1..])
  }

  /** `EscDblQuotes` changes nothing but the escaping of double quotes. */
  lemma {:induction false} EscDblQuotesKeepsText(s: JsString)
    ensures DropQuoteEscapes(EscDblQuotes(s)) == DropQuoteEscapes(s)
    decreases |s|
  {
    if |s| > 0 {
      var pair := [Backslash, DoubleQuote];
      if |s| >= 2 && s[0] == Backslash && s[1] == DoubleQuote {
        var e := EscDblQuotes(s[2..]);
        EscDblQuotesKeepsText(s[2..]);
        assert (pair + e)[2..] == e;
      } else if s[0] == DoubleQuote {
        var e := EscDblQuotes(s[1..]);
        EscDblQuotesKeepsText(s[1..]);
        assert (pair + e)[2..] == e;
      } else {
        var e := EscDblQuotes(s[1..]);
        EscDblQuotesKeepsText(s[1..]);
        assert ([s[0]] + e)[1..] == e;
      }
    }
  }

  /** A text without double quotes is left as it is. */
  lemma {:induction false} EscDblQuotesPlain(a: JsString)
    requires forall k :: 0 <= k < |a| ==> a[k] != DoubleQuote
    ensures EscDblQuotes(a) == a
    decreases |a|
  {
    if |a| > 0 {
      EscDblQuotesPlain(a[1..]);
      assert a == [a[0]] + a[1..];
    }
  }

  // ---------------------------------------------------------------------------
  // replace(/\\'/g, "'")
  // ---------------------------------------------------------------------------

  /** `s.replace(/\\'/g, "'")`: escaped single quotes lose their backslash. */
  function UnescSingle(s: JsString): (r: JsString)
    ensures |r| <= |s|
    decreases |s|
  {
    if |s| == 0 then []
    else if |s| >= 2 && s[0] == Backslash && s[1] == SingleQuote then [SingleQuote] + UnescSingle(s[2..])
    else [s[0]] + UnescSingle(s[1..])
  }

  /** Single quotes written with a backslash in front. */
  function EscSingle(x: JsString): (r: JsString)
    ensures |r| == 0 || r[0] != SingleQuote
    decreases |x|
  {
    if |x| == 0 then []
    else if x[0] == SingleQuote then [Backslash, SingleQuote] + EscSingle(x[1..])
    else [x[0]] + EscSingle(x[1..])
  }

  /** `UnescSingle` undoes the escaping of single quotes. */
  lemma {:induction false} UnescSingleInverse(x: JsString)
    ensures UnescSingle(EscSingle(x)) == x
    decreases |x|
  {
    if |x| > 0 {
      var e := EscSingle(x[1..]);
      UnescSingleInverse(x[1..]);
      if x[0] == SingleQuote {
        assert ([Backslash, SingleQuote] + e)[2..] == e;
      } else {
        assert ([x[0]] + e)[1..] == e;
      }
      assert x == [x[0]] + x[1..];
    }
  }

  /** A text without single quotes is left as it is. */
  lemma {:induction false} UnescSinglePlain(a: JsString)
    requires forall k :: 0 <= k < |a| ==> a[k] != SingleQuote
    ensures UnescSingle(a) == a
    decreases |a|
  {
    if |a| > 0 {
      UnescSinglePlain(a[1..]);
      assert a == [a[0]] + a[1..];
    }
  }

  lemma {:induction false} UnescSingleAppend(a: JsString, b: JsString)
    requires |a| == 0 || |b| == 0 || a[|a| - 1] != Backslash || b[0] != SingleQuote
    ensures UnescSingle(a + b) == UnescSingle(a) + UnescSingle(b)
    decreases |a|
  {
    if |a| == 0 {
      assert a + b == b;
    } else {
      var t := a + b;
      var n := if |a| >= 2 && a[0] == Backslash && a[1] == SingleQuote then 2 else 1;
      var h := UnescSingle(a[..n]);
      assert t[..n] == a[..n] && t[n..] == a[n..] + b;
      UnescSingleHead(t, n);
      UnescSingleHead(a, n);
      UnescSingleAppend(a[n..], b);
      ConcatAssoc(h, UnescSingle(a[n..]), UnescSingle(b));
    }
  }

  /** `UnescSingle` reads its first unit, or its first escaped quote, on its own. */
  lemma UnescSingleHead(s: JsString, n: nat)
    requires |s| >= 1 && n == (if |s| >= 2 && s[0] == Backslash && s[1] == SingleQuote then 2 else 1)
    ensures UnescSingle(s) == UnescSingle(s[..n]) + UnescSingle(s[n..])
  {
    var h := s[..n];
    assert h[n..] == [];
    if n == 1 {
      assert UnescSingle(h) == [s[0]];
    } else {
      assert UnescSingle(h) == [SingleQuote];
    }
  }

  // ---------------------------------------------------------------------------
  // The single-quote rewrite
  // ---------------------------------------------------------------------------

  /**
   * `"${m.substr(1, m.length - 2).replace(/\\?"/g, '\\"').replace(/\\'/g, "'")}"`:
   * the body of a single-quoted literal put between double quotes.
   */
  function RewriteSingle(lit: JsString): (r: JsString)
    requires |lit| >= 2
    ensures |r| >= 2 && r[0] == DoubleQuote && r[|r| - 1] == DoubleQuote
  {
    [DoubleQuote] + UnescSingle(EscDblQuotes(lit[1..|lit| - 1])) + [DoubleQuote]
  }

  /** One code unit as it may be written inside a single-quoted literal. */
  function SqEscapeUnit(c: CodeUnit): (r: JsString)
    ensures |r| > 0 && r[0] != SingleQuote && r[0] != DoubleQuote
  {
    if c == SingleQuote || c == DoubleQuote then [Backslash, c] else EscapeUnit(c)
  }

  /** The body of a single-quoted literal for `x`: both quotes, backslashes and controls escaped. */
  function SqBody(x: JsString): (r: JsString)
    ensures |r| == 0 || (r[0] != SingleQuote && r[0] != DoubleQuote)
    decreases |x|
  {
    if |x| == 0 then [] else SqEscapeUnit(x[0]) + SqBody(x[1..])
  }

  /** The single-quoted literal for `x`. */
  function SqQuote(x: JsString): (r: JsString)
    ensures |r| >= 2 && r[0] == SingleQuote && r[|r| - 1] == SingleQuote
  {
    [SingleQuote] + SqBody(x) + [SingleQuote]
  }

  /** Text with nothing to escape, and no single quote, is its own single-quoted body. */
  lemma {:induction false} SqBodyPlain(x: JsString)
    requires NeedsNoEscape(x) && forall k :: 0 <= k < |x| ==> x[k] != SingleQuote
    ensures SqBody(x) == x
    decreases |x|
  {
    if |x| > 0 {
      SqBodyPlain(x[1..]);
      assert x == [x[0]] + x[1..];
    }
  }

  /** The single-quoted body of a concatenation is the concatenation of the bodies. */
  lemma {:induction false} SqBodyAppend(a: JsString, b: JsString)
    ensures SqBody(a + b) == SqBody(a) + SqBody(b)
    decreases |a|
  {
    if |a| == 0 {
      assert a + b == b;
    } else {
      assert (a + b)[0] == a[0] && (a + b)[1..] == a[1..] + b;
      SqBodyAppend(a[1..], b);
      ConcatAssoc(SqEscapeUnit(a[0]), SqBody(a[1..]), SqBody(b));
    }
  }

  lemma SqEscapeUnitRewrite(c: CodeUnit)
    ensures EscDblQuotes(SqEscapeUnit(c)) == SqEscapeUnit(c)
    ensures UnescSingle(SqEscapeUnit(c)) == EscapeUnit(c)
  {
    var u := SqEscapeUnit(c);
    if c == SingleQuote {
      assert u[2..] == [] && u[1..] == [SingleQuote];
      assert EscDblQuotes(u[1..]) == [SingleQuote] + EscDblQuotes([]);
      assert EscDblQuotes(u) == [Backslash] + EscDblQuotes(u[1..]);
      assert UnescSingle(u) == [SingleQuote] + UnescSingle([]);
    } else if c == DoubleQuote {
      assert u[2..] == [] && u[1..] == [DoubleQuote];
      assert EscDblQuotes(u) == [Backslash, DoubleQuote] + EscDblQuotes([]);
      assert UnescSingle(u[1..]) == [DoubleQuote] + UnescSingle([]);
      assert UnescSingle(u) == [Backslash] + UnescSingle(u[1..]);
    } else {
      EscDblQuotesPlain(u);
      UnescSinglePlain(u);
    }
  }

  /** In the body of a single-quoted literal every double quote is escaped. */
  lemma {:induction false} SqBodyQuotesEscaped(x: JsString)
    ensures QuotesEscaped(SqBody(x))
    decreases |x|
  {
    if |x| > 0 {
      var u := SqEscapeUnit(x[0]);
      SqEscapeUnitRewrite(x[0]);
      EscDblQuotesIdempotent(u);
      SqBodyQuotesEscaped(x[1..]);
      QuotesEscapedAppend(u, SqBody(x[1..]));
    }
  }

  /** So the body passes the double-quote escaping untouched. */
  lemma SqBodyEscaped(x: JsString)
    ensures EscDblQuotes(SqBody(x)) == SqBody(x)
  {
    SqBodyQuotesEscaped(x);
    EscDblQuotesFixes(SqBody(x));
  }

  /** Unescaping its single quotes turns that body into the JSON string body for `x`. */
  lemma {:induction false} SqBodyUnescaped(x: JsString)
    ensures UnescSingle(SqBody(x)) == QuoteBody(x)
    decreases |x|
  {
    if |x| > 0 {
      SqBodyUnescaped(x[1..]);
      SqEscapeUnitRewrite(x[0]);
      UnescSingleAppend(SqEscapeUnit(x[0]), SqBody(x[1..]));
    }
  }

  /** The rewrite turns the single-quoted literal for `x` into the JSON string for `x`. */
  lemma RewriteSqQuote(x: JsString)
    ensures RewriteSingle(SqQuote(x)) == Quote(x)
    ensures Parse(RewriteSingle(SqQuote(x))) == Some(String(x))
  {
    var lit := SqQuote(x);
    assert lit[1..|lit| - 1] == SqBody(x);
    SqBodyEscaped(x);
    SqBodyUnescaped(x);
    ParseQuote(x);
  }

  /**
   * A single-quoted literal may hold raw double quotes (and no backslash):
   * the rewrite escapes them, and the result is the JSON string for the text.
   */
  lemma RewriteRawDoubleQuotes(x: JsString)
    requires forall k :: 0 <= k < |x| ==> x[k] != SingleQuote && x[k] != Backslash && x[k] >= 0x20
    ensures IsLiteral([SingleQuote] + x + [SingleQuote])
    ensures RewriteSingle([SingleQuote] + x + [SingleQuote]) == Quote(x)
  {
    var lit := [SingleQuote] + x + [SingleQuote];
    assert lit[1..|lit| - 1] == x;
    IsBodyPlain(x, SingleQuote);
    EscDblQuotesRaw(x);
    UnescSinglePlain(QuoteBody(x));
  }

  /**
   * On text with no single quote, backslash or control character, escaping
   * the double quotes is JSON quoting, and it adds no single quote.
   */
  lemma {:induction false} EscDblQuotesRaw(x: JsString)
    requires forall k :: 0 <= k < |x| ==> x[k] != SingleQuote && x[k] != Backslash && x[k] >= 0x20
    ensures EscDblQuotes(x) == QuoteBody(x)
    ensures forall k :: 0 <= k < |QuoteBody(x)| ==> QuoteBody(x)[k] != SingleQuote
    decreases |x|
  {
    if |x| > 0 {
      EscDblQuotesRaw(x[1..]);
      var u := EscapeUnit(x[0]);
      var b := QuoteBody(x[1..]);
      assert QuoteBody(x) == u + b;
      forall k | 0 <= k < |u + b| ensures (u + b)[k] != SingleQuote {
        if k >= |u| {
          assert (u + b)[k] == b[k - |u|];
        }
      }
    }
  }

  /**
   * In a single-quoted literal, an escaped backslash followed by a double
   * quote (`'a\\"b'`, the JavaScript string `a\"b`) leaves the double quote
   * unescaped: `\\?"` matches only the `\"`, the JSON text becomes `"a\\"b"`,
   * whose string ends after `a\`, and `JSON.parse` throws.
   */
  lemma RewriteBackslashQuote()
    ensures var lit := [SingleQuote, 'a' as int, Backslash, Backslash, DoubleQuote, 'b' as int, SingleQuote];
      && IsLiteral(lit)
      && RewriteSingle(lit) == [DoubleQuote, 'a' as int, Backslash, Backslash, DoubleQuote, 'b' as int, DoubleQuote]
      && Parse(RewriteSingle(lit)).None?
  {
    var body := ['a' as int, Backslash, Backslash, DoubleQuote, 'b' as int];
    var lit := [SingleQuote, 'a' as int, Backslash, Backslash, DoubleQuote, 'b' as int, SingleQuote];
    assert lit[1..|lit| - 1] == body;
    QuirkBody(body);
    assert IsLiteral(lit);
    var m := [DoubleQuote, 'a' as int, Backslash, Backslash, DoubleQuote, 'b' as int, DoubleQuote];
    assert RewriteSingle(lit) == [DoubleQuote] + body + [DoubleQuote] == m;
    QuirkParse(m);
  }

  lemma QuirkBody(body: JsString)
    requires body == [0x61, 0x5C, 0x5C, 0x22, 0x62]
    ensures IsBody(body, SingleQuote)
    ensures EscDblQuotes(body) == body && UnescSingle(body) == body
  {
    assert body[1..] == [0x5C, 0x5C, 0x22, 0x62];
    assert body[2..] == [0x5C, 0x22, 0x62];
    assert body[3..] == [0x22, 0x62];
    assert body[4..] == [0x62];
    assert body[5..] == [];
    assert IsBody(body[3..], SingleQuote);
    assert EscDblQuotes(body[4..]) == body[4..];
    assert EscDblQuotes(body[2..]) == body[2..];
    assert EscDblQuotes(body[1..]) == body[1..];
    assert UnescSingle(body[3..]) == body[3..];
    assert UnescSingle(body[2..]) == body[2..];
    assert UnescSingle(body[1..]) == body[1..];
  }

  lemma QuirkParse(m: JsString)
    requires m == [DoubleQuote, 'a' as int, Backslash, Backslash, DoubleQuote, 'b' as int, DoubleQuote]
    ensures Parse(m).None?
  {
    var none: JsString := [];
    assert DecodeString(m, 4) == Some((none, 5));
    assert m[3] != 'u' as int && SimpleEscape(m[3]) == Some(Backslash);
    assert [Backslash] + none == [Backslash];
    assert DecodeString(m, 2) == Some(([Backslash], 5));
    assert ['a' as int] + [Backslash] == ['a' as int, Backslash];
    assert DecodeString(m, 1) == Some((['a' as int, Backslash], 5));
    assert !IsJsonWs(m[5]);
  }

  /** Escaping double quotes only adds backslashes: the control characters pass through in order. */
  lemma {:induction false} EscDblQuotesControls(s: JsString)
    ensures Controls(EscDblQuotes(s)) == Controls(s)
    decreases |s|
  {
    if |s| > 0 {
      var pair := [Backslash, DoubleQuote];
      ControlsNone(pair);
      if |s| >= 2 && s[0] == Backslash && s[1] == DoubleQuote {
        EscDblQuotesControls(s[2..]);
        ControlsAppend(pair, EscDblQuotes(s[2..]));
        assert s == pair + s[2..];
        ControlsAppend(pair, s[2..]);
      } else if s[0] == DoubleQuote {
        EscDblQuotesControls(s[1..]);
        ControlsAppend(pair, EscDblQuotes(s[1..]));
      } else {
        EscDblQuotesControls(s[1..]);
        ControlsAppend([s[0]], EscDblQuotes(s[1..]));
      }
    }
  }

  /** Dropping the backslash of `\'` keeps the control characters in order. */
  lemma {:induction false} UnescSingleControls(s: JsString)
    ensures Controls(UnescSingle(s)) == Controls(s)
    decreases |s|
  {
    if |s| > 0 {
      if |s| >= 2 && s[0] == Backslash && s[1] == SingleQuote {
        var pair := [Backslash, SingleQuote];
        UnescSingleControls(s[2..]);
        ControlsAppend([SingleQuote], UnescSingle(s[2..]));
        assert s == pair + s[2..];
        ControlsAppend(pair, s[2..]);
        ControlsNone(pair);
      } else {
        UnescSingleControls(s[1..]);
        ControlsAppend([s[0]], UnescSingle(s[1..]));
      }
    }
  }

  // ---------------------------------------------------------------------------
  // The quoted-string search
  // ---------------------------------------------------------------------------

  /**
   * The leftmost quoted literal at or after `from`, as its start and end:
   * what `exec` of `'(?:\\.|[^\\'])*'|"(?:\\.|[^\\"])*"` finds.
   */
  function FindQuoted(s: JsString, from: nat): (r: Option<(nat, nat)>)
    requires from <= |s|
    ensures r.Some? ==> from <= r.value.0 <= |s| && QuotedEnd(s, r.value.0) == Some(r.value.1)
    ensures r.Some? ==> forall q {:trigger QuotedEnd(s, q)} :: from <= q < r.value.0 ==> QuotedEnd(s, q).None?
    ensures r.None? ==> forall q {:trigger QuotedEnd(s, q)} :: from <= q <= |s| ==> QuotedEnd(s, q).None?
    decreases |s| - from
  {
    if from == |s| then None
    else match QuotedEnd(s, from)
      case Some(e) => Some((from, e))
      case None => FindQuoted(s, from + 1)
  }

  /**
   * `quotedStrRe.exec(s)` read as `match[1] || match[2]`: the body of the
   * leftmost quoted literal. An empty single-quoted body is the empty string
   * in group 1, which is falsy, and group 2 did not take part, so the result
   * is undefined; an empty double-quoted body is the empty string.
   */
  function QuotedStrMatch(s: JsString): (r: Option<JsString>)
    ensures r.Some? ==> exists p: nat :: LiteralAround(s, p, r.value) && NoQuotedBefore(s, p)
    ensures r.None? ==>
      || (forall p: nat {:trigger QuotedEnd(s, p)} :: p <= |s| ==> QuotedEnd(s, p).None?)
      || exists p: nat :: LiteralAround(s, p, []) && NoQuotedBefore(s, p) && s[p] == SingleQuote
  {
    match FindQuoted(s, 0)
    case None => None
    case Some((p, e)) =>
      var w := s[p..e];
      assert w[0] == s[p] && w[|w| - 1] == s[e - 1] && w[1..|w| - 1] == s[p + 1..e - 1];
      assert LiteralAround(s, p, s[p + 1..e - 1]);
      if s[p] == SingleQuote && e == p + 2 then
        assert s[p + 1..e - 1] == [];
        None
      else Some(s[p + 1..e - 1])
  }

  /** `s[p..]` opens with a quoted literal whose inside is `body`. */
  ghost predicate LiteralAround(s: JsString, p: nat, body: JsString) {
    p + |body| + 2 <= |s| && IsQuoted(s[p..p + |body| + 2]) && s[p + 1..p + |body| + 1] == body
  }

  /** No quoted literal starts before `p`. */
  ghost predicate NoQuotedBefore(s: JsString, p: nat)
    requires p <= |s|
  {
    forall q {:trigger QuotedEnd(s, q)} :: 0 <= q < p ==> QuotedEnd(s, q).None?
  }

  /** `getString(s)`: the leftmost quoted literal, rewritten into double quotes when single-quoted. */
  function GetString(s: JsString): (r: Option<JsString>)
    ensures r.Some? ==> |r.value| >= 2 && r.value[0] == DoubleQuote && r.value[|r.value| - 1] == DoubleQuote
  {
    match FindQuoted(s, 0)
    case None => None
    case Some((p, e)) =>
      var m := s[p..e];
      if s[p] == SingleQuote then Some(RewriteSingle(m)) else Some(m)
  }

  /** With no quote before `p`, the search finds the literal `s[p..e]`. */
  lemma FindQuotedAt(s: JsString, p: nat, e: nat)
    requires p + 2 <= e <= |s| && IsQuote(s[p]) && s[e - 1] == s[p] && IsBody(s[p + 1..e - 1], s[p])
    requires forall q :: 0 <= q < p ==> !IsQuote(s[q])
    ensures FindQuoted(s, 0) == Some((p, e))
  {
    QuotedEndAt(s, p, e);
    FindQuotedFrom(s, 0, p, e);
  }

  /** A quote, a literal body and the same quote again is a quoted literal. */
  lemma QuotedEndAt(s: JsString, p: nat, e: nat)
    requires p + 2 <= e <= |s| && IsQuote(s[p]) && s[e - 1] == s[p] && IsBody(s[p + 1..e - 1], s[p])
    ensures QuotedEnd(s, p) == Some(e)
  {
    BodyEndComplete(s, p + 1, s[p], e - 1);
  }

  lemma {:induction false} FindQuotedFrom(s: JsString, from: nat, p: nat, e: nat)
    requires from <= p < |s| && QuotedEnd(s, p) == Some(e)
    requires forall q :: from <= q < p ==> !IsQuote(s[q])
    ensures FindQuoted(s, from) == Some((p, e))
    decreases p - from
  {
    if from < p {
      FindQuotedFrom(s, from + 1, p, e);
    }
  }

  /** Text with no quote holds no quoted literal. */
  lemma NoQuotedLiteral(s: JsString)
    requires forall k :: 0 <= k < |s| ==> !IsQuote(s[k])
    ensures QuotedStrMatch(s).None? && GetString(s).None?
  {
  }

  /** A quoted literal after text with no quote is the literal the search finds. */
  lemma FindQuotedAfter(pre: JsString, lit: JsString, post: JsString)
    requires IsQuoted(lit) && forall k :: 0 <= k < |pre| ==> !IsQuote(pre[k])
    ensures var s := pre + lit + post;
      && FindQuoted(s, 0) == Some((|pre|, |pre| + |lit|))
      && s[|pre|] == lit[0] && s[|pre|..|pre| + |lit|] == lit
  {
    var s := pre + lit + post;
    var p := |pre|;
    var e := p + |lit|;
    assert s[p..e] == lit;
    assert s[p + 1..e - 1] == lit[1..|lit| - 1];
    FindQuotedAt(s, p, e);
  }

  /**
   * `quotedStrRe` reports the body of the first quoted literal, when no quote
   * comes before it; an empty single-quoted body reads as undefined.
   */
  lemma QuotedStrMatchAfter(pre: JsString, lit: JsString, post: JsString)
    requires IsQuoted(lit) && forall k :: 0 <= k < |pre| ==> !IsQuote(pre[k])
    ensures QuotedStrMatch(pre + lit + post) == if lit[0] == SingleQuote && |lit| == 2 then None else Some(lit[1..|lit| - 1])
  {
    var s := pre + lit + post;
    FindQuotedAfter(pre, lit, post);
    SliceOfSlice(s, |pre|, |pre| + |lit|, 1, |lit| - 1);
  }

  /** `getString` returns the first quoted literal, rewritten into double quotes when single-quoted. */
  lemma GetStringAfter(pre: JsString, lit: JsString, post: JsString)
    requires IsQuoted(lit) && forall k :: 0 <= k < |pre| ==> !IsQuote(pre[k])
    ensures GetString(pre + lit + post) == Some(if lit[0] == SingleQuote then RewriteSingle(lit) else lit)
  {
    FindQuotedAfter(pre, lit, post);
  }

  /** `getString` on the single-quoted literal for `x` gives the JSON string for `x`. */
  lemma GetStringSingle(pre: JsString, x: JsString, post: JsString)
    requires forall k :: 0 <= k < |pre| ==> !IsQuote(pre[k])
    ensures GetString(pre + SqQuote(x) + post) == Some(Quote(x))
    ensures Parse(Quote(x)) == Some(String(x))
  {
    var lit := SqQuote(x);
    assert lit[1..|lit| - 1] == SqBody(x);
    SqBodyIsBody(x);
    GetStringAfter(pre, lit, post);
    RewriteSqQuote(x);
  }

  /** `getString` returns the JSON string for `x` unchanged. */
  lemma GetStringDouble(pre: JsString, x: JsString, post: JsString)
    requires forall k :: 0 <= k < |pre| ==> !IsQuote(pre[k])
    ensures GetString(pre + Quote(x) + post) == Some(Quote(x))
    ensures Parse(Quote(x)) == Some(String(x))
  {
    var lit := Quote(x);
    assert lit[1..|lit| - 1] == QuoteBody(x);
    QuoteBodyIsBody(x);
    GetStringAfter(pre, lit, post);
    ParseQuote(x);
  }

  /** `getString` on a single-quoted literal holding raw double quotes gives the JSON string for its text. */
  lemma GetStringRawDoubleQuotes(pre: JsString, x: JsString, post: JsString)
    requires forall k :: 0 <= k < |pre| ==> !IsQuote(pre[k])
    requires forall k :: 0 <= k < |x| ==> x[k] != SingleQuote && x[k] != Backslash && x[k] >= 0x20
    ensures GetString(pre + ([SingleQuote] + x + [SingleQuote]) + post) == Some(Quote(x))
  {
    RewriteRawDoubleQuotes(x);
    GetStringAfter(pre, [SingleQuote] + x + [SingleQuote], post);
  }

  // ---------------------------------------------------------------------------
  // The encoders produce literal bodies
  // ---------------------------------------------------------------------------

  lemma {:induction false} IsBodyAppend(a: JsString, b: JsString, q: CodeUnit)
    requires IsBody(a, q) && IsBody(b, q)
    ensures IsBody(a + b, q)
    decreases |a|
  {
    if |a| > 0 {
      var t := a + b;
      assert t[0] == a[0];
      if a[0] == Backslash {
        assert |a| >= 2 && !IsLineTerminator(a[1]) && IsBody(a[2..], q);
        assert t[1] == a[1];
        assert t[2..] == a[2..] + b;
        IsBodyAppend(a[2..], b, q);
      } else {
        assert a[0] != q && IsBody(a[1..], q);
        assert t[1..] == a[1..] + b;
        IsBodyAppend(a[1..], b, q);
      }
    } else {
      assert a + b == b;
    }
  }

  /** A text with neither backslashes nor the quote is a body. */
  lemma {:induction false} IsBodyPlain(a: JsString, q: CodeUnit)
    requires forall k :: 0 <= k < |a| ==> a[k] != Backslash && a[k] != q
    ensures IsBody(a, q)
    decreases |a|
  {
    if |a| > 0 {
      IsBodyPlain(a[1..], q);
    }
  }

  lemma EscapeUnitIsBody(u: JsString, q: CodeUnit)
    requires IsQuote(q)
    requires || (|u| == 1 && u[0] != Backslash && u[0] != q)
             || (|u| == 2 && u[0] == Backslash && !IsLineTerminator(u[1]))
             || (|u| == 6 && u[0] == Backslash && u[1] == 'u' as int && forall k :: 2 <= k < 6 ==> IsHexDigit(u[k]))
    ensures IsBody(u, q)
  {
    if |u| == 6 {
      IsBodyPlain(u[2..], q);
    } else if |u| == 2 {
      assert u[2..] == [];
    } else {
      assert u[1..] == [];
    }
  }

  /** The JSON string body for `x` is a double-quoted literal body. */
  lemma {:induction false} QuoteBodyIsBody(x: JsString)
    ensures IsBody(QuoteBody(x), DoubleQuote)
    decreases |x|
  {
    if |x| > 0 {
      QuoteBodyIsBody(x[1..]);
      EscapeUnitIsBody(EscapeUnit(x[0]), DoubleQuote);
      IsBodyAppend(EscapeUnit(x[0]), QuoteBody(x[1..]), DoubleQuote);
    }
  }

  /** The single-quoted body for `x` is a single-quoted literal body. */
  lemma {:induction false} SqBodyIsBody(x: JsString)
    ensures IsBody(SqBody(x), SingleQuote)
    decreases |x|
  {
    if |x| > 0 {
      SqBodyIsBody(x[1..]);
      EscapeUnitIsBody(SqEscapeUnit(x[0]), SingleQuote);
      IsBodyAppend(SqEscapeUnit(x[0]), SqBody(x[1..]), SingleQuote);
    }
  }
}
