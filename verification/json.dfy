/**
 * `JSON.parse` on the two kinds of text the scanner hands it: a text that
 * starts with a double quote (a bracket literal, or a single-quoted literal
 * rewritten into double quotes) and a run of decimal digits.
 *
 * A string is decoded as section 7 of RFC 8259 describes: the escapes
 * `\" \\ \/ \b \f \n \r \t \uXXXX`, no raw code unit below 0x20, and after
 * the closing quote nothing but JSON whitespace. A digit run is a JSON
 * number only without a leading zero (section 6 of RFC 8259).
 *
 * Next to the decoder stand the encoders `Quote` and `Decimal`, with the
 * round trips that tie them to it.
 */
module Json {
  import opened Text

  /** What `JSON.parse` returns for the texts the scanner gives it. */
  datatype Value = String(text: JsString) | Number(value: nat)

  // ---------------------------------------------------------------------------
  // Strings
  // ---------------------------------------------------------------------------

  /** The code unit a two-character escape `\e` stands for, if `e` names one. */
  function SimpleEscape(e: CodeUnit): (r: Option<CodeUnit>)
    ensures r.Some? <==> e in ['"' as int, '\\' as int, '/' as int, 'b' as int, 'f' as int, 'n' as int, 'r' as int, 't' as int]
    ensures e == DoubleQuote || e == Backslash || e == '/' as int ==> r == Some(e)
  {
    if e == DoubleQuote || e == Backslash || e == '/' as int then Some(e)
    else if e == 'b' as int then Some(0x08)
    else if e == 'f' as int then Some(0x0C)
    else if e == 'n' as int then Some(0x0A)
    else if e == 'r' as int then Some(0x0D)
    else if e == 't' as int then Some(0x09)
    else None
  }

  /** The code unit written as the four hex digits `m[i..i + 4]`. */
  function HexQuad(m: JsString, i: nat): (c: CodeUnit)
    requires i + 4 <= |m|
    requires forall k :: i <= k < i + 4 ==> IsHexDigit(m[k])
  {
    HexValue(m[i]) * 0x1000 + HexValue(m[i + 1]) * 0x100 + HexValue(m[i + 2]) * 0x10 + HexValue(m[i + 3])
  }

  /**
   * The code unit written at `m[i]`, which is neither the closing quote nor
   * past the end, and the position just after it: a plain code unit, a
   * two-character escape or a `\uXXXX` escape. `None` for a raw control
   * character or a malformed escape.
   */
  function UnitAt(m: JsString, i: nat): (r: Option<(CodeUnit, nat)>)
    requires i < |m|
    ensures r.Some? ==> i < r.value.1 <= |m|
  {
    if m[i] < 0x20 then None
    else if m[i] != Backslash then Some((m[i], i + 1))
    else if i + 1 == |m| then None
    else if m[i + 1] == 'u' as int then
      if i + 6 <= |m| && forall k :: i + 2 <= k < i + 6 ==> IsHexDigit(m[k]) then
        Some((HexQuad(m, i + 2), i + 6))
      else None
    else
      match SimpleEscape(m[i + 1])
      case None => None
      case Some(c) => Some((c, i + 2))
  }

  /**
   * The characters of a JSON string whose opening quote precedes `i`: the
   * decoded code units and the position just after the closing quote, or
   * `None` when the string is malformed or never closed.
   */
  function DecodeString(m: JsString, i: nat): (r: Option<(JsString, nat)>)
    requires i <= |m|
    ensures r.Some? ==> i < r.value.1 <= |m| && m[r.value.1 - 1] == DoubleQuote
    ensures r.Some? ==> |r.value.0| < r.value.1 - i
    decreases |m| - i
  {
    if i == |m| then None
    else if m[i] == DoubleQuote then Some(([], i + 1))
    else
      match UnitAt(m, i)
      case None => None
      case Some((c, j)) => Prepend(c, DecodeString(m, j))
  }

  function Prepend(c: CodeUnit, r: Option<(JsString, nat)>): Option<(JsString, nat)> {
    match r
    case None => None
    case Some((t, e)) => Some(([c] + t, e))
  }

  /** Every code unit of `m[i..j]` is JSON whitespace. */
  predicate AllJsonWs(m: JsString, i: nat, j: nat)
    requires i <= j <= |m|
  {
    forall k :: i <= k < j ==> IsJsonWs(m[k])
  }

  // ---------------------------------------------------------------------------
  // Numbers
  // ---------------------------------------------------------------------------

  /** The value of a run of decimal digits, most significant first. */
  function DecimalValue(m: JsString): (v: nat)
    requires AllDigits(m, 0, |m|)
  {
    if |m| == 0 then 0 else DecimalValue(m[..|m| - 1]) * 10 + DigitValue(m[|m| - 1])
  }

  /** A digit run is a JSON number unless it has a leading zero. */
  predicate IsCanonical(m: JsString)
    requires |m| > 0
  {
    m[0] != '0' as int || |m| == 1
  }

  // ---------------------------------------------------------------------------
  // JSON.parse
  // ---------------------------------------------------------------------------

  /** `JSON.parse(m)`, with `None` where it throws. */
  function Parse(m: JsString): (r: Option<Value>)
    requires |m| > 0 && (m[0] == DoubleQuote || AllDigits(m, 0, |m|))
    ensures m[0] == DoubleQuote ==> r.None? || r.value.String?
    ensures m[0] != DoubleQuote ==> (r.Some? <==> IsCanonical(m)) && (r.Some? ==> r.value.Number?)
  {
    if m[0] == DoubleQuote then
      match DecodeString(m, 1)
      case None => None
      case Some((t, e)) => if AllJsonWs(m, e, |m|) then Some(String(t)) else None
    else if IsCanonical(m) then Some(Number(DecimalValue(m)))
    else None
  }

  // ---------------------------------------------------------------------------
  // Which strings parse: the grammar of section 7 of RFC 8259
  // ---------------------------------------------------------------------------

  /** The letters that may follow a backslash in a two-character escape. */
  predicate IsEscapeLetter(e: CodeUnit) {
    || e == DoubleQuote || e == Backslash || e == '/' as int
    || e == 'b' as int || e == 'f' as int || e == 'n' as int || e == 'r' as int || e == 't' as int
  }

  /**
   * `w` is the body of a JSON string: a sequence of unescaped units (no
   * double quote, no backslash, nothing below 0x20), two-character escapes
   * and `\uXXXX` escapes.
   */
  predicate IsJsonStringBody(w: JsString)
    decreases |w|
  {
    if |w| == 0 then true
    else if w[0] == Backslash then
      if |w| >= 2 && w[1] == 'u' as int then
        |w| >= 6 && IsHexDigit(w[2]) && IsHexDigit(w[3]) && IsHexDigit(w[4]) && IsHexDigit(w[5])
        && IsJsonStringBody(w[6..])
      else |w| >= 2 && IsEscapeLetter(w[1]) && IsJsonStringBody(w[2..])
    else w[0] >= 0x20 && w[0] != DoubleQuote && IsJsonStringBody(w[1..])
  }

  /** `m` is a whole JSON string text: a quote, a body, a quote, then only JSON whitespace. */
  ghost predicate IsJsonStringText(m: JsString) {
    exists j :: 1 <= j < |m| && ClosesAt(m, j)
  }

  /** The string that opens `m` has a valid body `m[1..j]` closed at `j`, and only whitespace follows. */
  predicate ClosesAt(m: JsString, j: nat)
    requires 1 <= j < |m|
  {
    m[0] == DoubleQuote && IsJsonStringBody(m[1..j]) && m[j] == DoubleQuote && AllJsonWs(m, j + 1, |m|)
  }

  /** What the decoder reads is a valid body followed by the closing quote. */
  lemma {:induction false} DecodeSound(m: JsString, i: nat)
    requires i <= |m| && DecodeString(m, i).Some?
    ensures IsJsonStringBody(m[i..DecodeString(m, i).value.1 - 1])
    decreases |m| - i
  {
    if m[i] != DoubleQuote {
      var e := DecodeString(m, i).value.1;
      var j := UnitAt(m, i).value.1;
      assert DecodeString(m, j).value.1 == e;
      DecodeSound(m, j);
      UnitSound(m, i, e - 1);
    }
  }

  /** A unit the decoder reads, followed by a valid body up to `b`, is a valid body up to `b`. */
  lemma UnitSound(m: JsString, i: nat, b: nat)
    requires i < |m| && m[i] != DoubleQuote && UnitAt(m, i).Some?
    requires UnitAt(m, i).value.1 <= b <= |m| && IsJsonStringBody(m[UnitAt(m, i).value.1..b])
    ensures IsJsonStringBody(m[i..b])
  {
    var j := UnitAt(m, i).value.1;
    var w := m[i..b];
    assert w[0] == m[i];
    if m[i] == Backslash {
      assert w[1] == m[i + 1];
      if m[i + 1] == 'u' as int {
        assert w[2] == m[i + 2] && w[3] == m[i + 3] && w[4] == m[i + 4] && w[5] == m[i + 5];
        assert w[6..] == m[j..b];
      } else {
        assert SimpleEscape(m[i + 1]).Some?;
        assert w[2..] == m[j..b];
      }
    } else {
      assert w[1..] == m[j..b];
    }
  }

  /** A valid body followed by a quote is read by the decoder up to that quote. */
  lemma {:induction false} DecodeComplete(m: JsString, i: nat, j: nat)
    requires i <= j < |m| && m[j] == DoubleQuote && IsJsonStringBody(m[i..j])
    ensures DecodeString(m, i).Some? && DecodeString(m, i).value.1 == j + 1
    decreases j - i
  {
    if j > i {
      var n := UnitComplete(m, i, j);
      DecodeComplete(m, n, j);
    }
  }

  /** The first unit of a non-empty valid body is read by the decoder, and a valid body follows it. */
  lemma UnitComplete(m: JsString, i: nat, j: nat) returns (n: nat)
    requires i < j < |m| && IsJsonStringBody(m[i..j])
    ensures m[i] != DoubleQuote && UnitAt(m, i).Some? && UnitAt(m, i).value.1 == n
    ensures n <= j && IsJsonStringBody(m[n..j])
  {
    var w := m[i..j];
    assert w[0] == m[i];
    if m[i] == Backslash {
      assert w[1] == m[i + 1];
      if m[i + 1] == 'u' as int {
        assert w[2] == m[i + 2] && w[3] == m[i + 3] && w[4] == m[i + 4] && w[5] == m[i + 5];
        n := i + 6;
        assert w[6..] == m[n..j];
      } else {
        n := i + 2;
        assert w[2..] == m[n..j];
      }
    } else {
      n := i + 1;
      assert w[1..] == m[n..j];
    }
  }

  /**
   * `JSON.parse` of a text that starts with a double quote succeeds exactly
   * when the text is a JSON string text; otherwise it throws.
   */
  lemma ParseString(m: JsString)
    requires |m| > 0 && m[0] == DoubleQuote
    ensures Parse(m).Some? <==> IsJsonStringText(m)
  {
    if Parse(m).Some? {
      var e := DecodeString(m, 1).value.1;
      DecodeSound(m, 1);
      assert ClosesAt(m, e - 1);
    }
    if IsJsonStringText(m) {
      var j :| 1 <= j < |m| && ClosesAt(m, j);
      DecodeComplete(m, 1, j);
    }
  }

  /** A text that starts and ends with a double quote parses exactly when what lies between is a valid body. */
  lemma ParseQuoted(m: JsString)
    requires |m| >= 2 && m[0] == DoubleQuote && m[|m| - 1] == DoubleQuote
    ensures Parse(m).Some? <==> IsJsonStringBody(m[1..|m| - 1])
  {
    ParseString(m);
    if IsJsonStringText(m) {
      var j :| 1 <= j < |m| && ClosesAt(m, j);
      assert !IsJsonWs(m[|m| - 1]);
      assert j == |m| - 1;
    }
    if IsJsonStringBody(m[1..|m| - 1]) {
      assert ClosesAt(m, |m| - 1);
    }
  }

  /** A body that reads to its end leaves the rest to be read on its own. */
  lemma {:induction false} JsonBodyAppend(p: JsString, q: JsString)
    requires IsJsonStringBody(p)
    ensures IsJsonStringBody(p + q) <==> IsJsonStringBody(q)
    decreases |p|
  {
    if |p| == 0 {
      assert p + q == q;
    } else {
      var w := p + q;
      assert w[0] == p[0];
      if p[0] == Backslash {
        assert w[1] == p[1];
        if p[1] == 'u' as int {
          assert w[2] == p[2] && w[3] == p[3] && w[4] == p[4] && w[5] == p[5];
          assert w[6..] == p[6..] + q;
          JsonBodyAppend(p[6..], q);
        } else {
          assert w[2..] == p[2..] + q;
          JsonBodyAppend(p[2..], q);
        }
      } else {
        assert w[1..] == p[1..] + q;
        JsonBodyAppend(p[1..], q);
      }
    }
  }

  /** The code units of `s` below 0x20, in order. */
  function Controls(s: JsString): (r: JsString)
    ensures forall k :: 0 <= k < |r| ==> r[k] < 0x20
    decreases |s|
  {
    if |s| == 0 then [] else (if s[0] < 0x20 then [s[0]] else []) + Controls(s[1..])
  }

  lemma {:induction false} ControlsAppend(a: JsString, b: JsString)
    ensures Controls(a + b) == Controls(a) + Controls(b)
    decreases |a|
  {
    if |a| == 0 {
      assert a + b == b;
    } else {
      assert (a + b)[0] == a[0] && (a + b)[1..] == a[1..] + b;
      ControlsAppend(a[1..], b);
    }
  }

  lemma {:induction false} ControlsNone(s: JsString)
    requires forall k :: 0 <= k < |s| ==> s[k] >= 0x20
    ensures Controls(s) == []
    decreases |s|
  {
    if |s| > 0 {
      ControlsNone(s[1..]);
    }
  }

  /** A JSON string body holds no raw control character: escapes are written with printable units. */
  lemma {:induction false} JsonBodyNoControls(w: JsString)
    requires IsJsonStringBody(w)
    ensures Controls(w) == []
    decreases |w|
  {
    if |w| > 0 {
      var n := if w[0] != Backslash then 1 else if w[1] == 'u' as int then 6 else 2;
      assert w == w[..n] + w[n..];
      ControlsAppend(w[..n], w[n..]);
      ControlsNone(w[..n]);
      JsonBodyNoControls(w[n..]);
    }
  }

  /** After a valid prefix, a backslash followed by anything but an escape letter or `u` makes the body invalid. */
  lemma BadEscape(p: JsString, e: CodeUnit, r: JsString)
    requires IsJsonStringBody(p) && !IsEscapeLetter(e) && e != 'u' as int
    ensures !IsJsonStringBody(p + [Backslash, e] + r)
  {
    JsonBodyAppend(p, [Backslash, e] + r);
    assert p + [Backslash, e] + r == p + ([Backslash, e] + r);
  }

  /** The first four code units of `r` are hex digits. */
  predicate FourHex(r: JsString) {
    |r| >= 4 && IsHexDigit(r[0]) && IsHexDigit(r[1]) && IsHexDigit(r[2]) && IsHexDigit(r[3])
  }

  /** After a valid prefix, `\u` not followed by four hex digits makes the body invalid. */
  lemma ShortUnicode(p: JsString, r: JsString)
    requires IsJsonStringBody(p) && !FourHex(r)
    ensures !IsJsonStringBody(p + [Backslash, 'u' as int] + r)
  {
    var w := [Backslash, 'u' as int] + r;
    JsonBodyAppend(p, w);
    assert p + [Backslash, 'u' as int] + r == p + w;
    assert w[0] == Backslash && w[1] == 'u' as int;
    if |r| >= 4 {
      assert w[2] == r[0] && w[3] == r[1] && w[4] == r[2] && w[5] == r[3];
    }
  }

  // ---------------------------------------------------------------------------
  // Encoders and round trips
  // ---------------------------------------------------------------------------

  function HexDigitOf(v: nat): (c: CodeUnit)
    requires v < 16
    ensures IsHexDigit(c) && HexValue(c) == v
  {
    if v < 10 then '0' as int + v else 'a' as int + v - 10
  }

  /** One code unit as it is written inside a JSON string. */
  function EscapeUnit(c: CodeUnit): (r: JsString)
    ensures |r| > 0 && r[0] != DoubleQuote
  {
    if c == DoubleQuote || c == Backslash then [Backslash, c]
    else if c < 0x20 then [Backslash, 'u' as int, '0' as int, '0' as int, HexDigitOf(c / 16), HexDigitOf(c % 16)]
    else [c]
  }

  /** The body of the JSON string for `x`: quotes, backslashes and controls escaped. */
  function QuoteBody(x: JsString): (r: JsString)
    ensures |r| >= |x|
  {
    if |x| == 0 then [] else EscapeUnit(x[0]) + QuoteBody(x[1..])
  }

  /** The JSON string for `x`. */
  function Quote(x: JsString): (r: JsString)
    ensures |r| >= 2 && r[0] == DoubleQuote && r[|r| - 1] == DoubleQuote
  {
    [DoubleQuote] + QuoteBody(x) + [DoubleQuote]
  }

  /** Text a JSON string holds as it is: no double quote, no backslash, no control character. */
  predicate NeedsNoEscape(x: JsString) {
    forall k :: 0 <= k < |x| ==> x[k] != DoubleQuote && x[k] != Backslash && x[k] >= 0x20
  }

  /** Such text is its own JSON string body. */
  lemma {:induction false} QuoteBodyPlain(x: JsString)
    requires NeedsNoEscape(x)
    ensures QuoteBody(x) == x
    decreases |x|
  {
    if |x| > 0 {
      QuoteBodyPlain(x[1..]);
      assert x == [x[0]] + x[1..];
    }
  }

  /** Escaping works unit by unit: the body of a concatenation is the concatenation of the bodies. */
  lemma {:induction false} QuoteBodyAppend(a: JsString, b: JsString)
    ensures QuoteBody(a + b) == QuoteBody(a) + QuoteBody(b)
    decreases |a|
  {
    if |a| == 0 {
      assert a + b == b;
    } else {
      assert (a + b)[0] == a[0] && (a + b)[1..] == a[1..] + b;
      QuoteBodyAppend(a[1..], b);
      ConcatAssoc(EscapeUnit(a[0]), QuoteBody(a[1..]), QuoteBody(b));
    }
  }

  /** A JSON string body contains no unescaped double quote. */
  lemma QuoteBodyNoQuote(x: JsString)
    ensures QuoteBody(x) == [] || QuoteBody(x)[0] != DoubleQuote
  {
  }

  /** Decoding reads one escaped code unit back. */
  lemma DecodeEscapeUnit(m: JsString, i: nat, c: CodeUnit)
    requires OccursAt(m, i, EscapeUnit(c))
    ensures m[i] != DoubleQuote && UnitAt(m, i) == Some((c, i + |EscapeUnit(c)|))
  {
    var u := EscapeUnit(c);
    assert m[i + 0] == u[0];
    if c == DoubleQuote || c == Backslash {
      assert m[i + 1] == u[1];
    } else if c < 0x20 {
      assert m[i + 1] == u[1] && m[i + 2] == u[2] && m[i + 3] == u[3] && m[i + 4] == u[4] && m[i + 5] == u[5];
      DecodeControl(m, i, c);
    }
  }

  lemma DecodeControl(m: JsString, i: nat, c: CodeUnit)
    requires c < 0x20
    requires i + 6 <= |m|
    requires m[i] == Backslash && m[i + 1] == 'u' as int && m[i + 2] == '0' as int && m[i + 3] == '0' as int
    requires m[i + 4] == HexDigitOf(c / 16) && m[i + 5] == HexDigitOf(c % 16)
    ensures UnitAt(m, i) == Some((c, i + 6))
  {
    assert forall k :: i + 2 <= k < i + 6 ==> IsHexDigit(m[k]);
    assert HexQuad(m, i + 2) == c;
  }

  /** Decoding stops right after the closing quote. */
  lemma DecodeClose(m: JsString, i: nat)
    requires i < |m| && m[i] == DoubleQuote
    ensures DecodeString(m, i) == Some(([], i + 1))
  {
  }

  /** Before the closing quote, decoding reads one unit and goes on after it. */
  lemma DecodeStep(m: JsString, i: nat, x: JsString, j: nat, e: nat)
    requires |x| > 0 && i < |m| && j <= |m|
    requires m[i] != DoubleQuote && UnitAt(m, i) == Some((x[0], j))
    ensures DecodeString(m, j) == Some((x[1..], e)) ==> DecodeString(m, i) == Some((x, e))
  {
    assert [x[0]] + x[1..] == x;
  }

  /** Decoding the body of `Quote(x)` gives back `x` and stops right after the closing quote. */
  lemma {:induction false} DecodeQuoteBody(m: JsString, i: nat, x: JsString)
    requires OccursAt(m, i, QuoteBody(x) + [DoubleQuote])
    ensures DecodeString(m, i) == Some((x, i + |QuoteBody(x)| + 1))
    decreases |x|
  {
    if |x| == 0 {
      DecodeEmptyBody(m, i, x);
    } else {
      var j := DecodeBodyStep(m, i, x);
      DecodeQuoteBody(m, j, x[1..]);
    }
  }

  /** After the first unit of a non-empty body, the rest of the body starts at `j`, and decoding it finishes the whole. */
  lemma DecodeBodyStep(m: JsString, i: nat, x: JsString) returns (j: nat)
    requires |x| > 0 && OccursAt(m, i, QuoteBody(x) + [DoubleQuote])
    ensures OccursAt(m, j, QuoteBody(x[1..]) + [DoubleQuote])
    ensures DecodeString(m, j) == Some((x[1..], j + |QuoteBody(x[1..])| + 1)) ==>
      DecodeString(m, i) == Some((x, i + |QuoteBody(x)| + 1))
  {
    j := DecodeFirstUnit(m, i, x);
    var e := i + |QuoteBody(x)| + 1;
    assert j + |QuoteBody(x[1..])| + 1 == e;
    DecodeStep(m, i, x, j, e);
  }

  /** The body of the empty text is nothing: decoding meets the closing quote at once. */
  lemma DecodeEmptyBody(m: JsString, i: nat, x: JsString)
    requires |x| == 0 && OccursAt(m, i, QuoteBody(x) + [DoubleQuote])
    ensures DecodeString(m, i) == Some((x, i + |QuoteBody(x)| + 1))
  {
    assert x == [] && QuoteBody(x) == [];
    assert m[i + 0] == (QuoteBody(x) + [DoubleQuote])[0];
    DecodeClose(m, i);
  }

  /** The first code unit of a quote body decodes on its own; the rest of the body starts at `j`. */
  lemma DecodeFirstUnit(m: JsString, i: nat, x: JsString) returns (j: nat)
    requires |x| > 0
    requires OccursAt(m, i, QuoteBody(x) + [DoubleQuote])
    ensures i < |m| && j <= |m|
    ensures m[i] != DoubleQuote && UnitAt(m, i) == Some((x[0], j))
    ensures j + |QuoteBody(x[1..])| == i + |QuoteBody(x)|
    ensures OccursAt(m, j, QuoteBody(x[1..]) + [DoubleQuote])
  {
    var u := EscapeUnit(x[0]);
    var b := QuoteBody(x[1..]);
    assert QuoteBody(x) == u + b;
    assert QuoteBody(x) + [DoubleQuote] == u + (b + [DoubleQuote]);
    OccursSplit(m, i, u, b + [DoubleQuote]);
    DecodeEscapeUnit(m, i, x[0]);
    j := i + |u|;
  }

  /** A JSON string that ends the text parses to its characters. */
  lemma ParseWholeString(m: JsString, t: JsString)
    requires |m| > 0 && m[0] == DoubleQuote && DecodeString(m, 1) == Some((t, |m|))
    ensures Parse(m) == Some(String(t))
  {
  }

  /** The JSON string for `x` holds its body and the closing quote from position 1 to its end. */
  lemma QuoteOccurs(x: JsString)
    ensures OccursAt(Quote(x), 1, QuoteBody(x) + [DoubleQuote]) && |Quote(x)| == |QuoteBody(x)| + 2
  {
    assert Quote(x) == [DoubleQuote] + (QuoteBody(x) + [DoubleQuote]);
    OccursAfter([DoubleQuote], QuoteBody(x) + [DoubleQuote]);
  }

  /** `JSON.parse` undoes `Quote`. */
  lemma ParseQuote(x: JsString)
    ensures Parse(Quote(x)) == Some(String(x))
  {
    QuoteOccurs(x);
    DecodeQuoteBody(Quote(x), 1, x);
    ParseWholeString(Quote(x), x);
  }

  function DigitOf(v: nat): (c: CodeUnit)
    requires v < 10
    ensures IsDigit(c) && DigitValue(c) == v
  {
    '0' as int + v
  }

  /** The decimal numeral of `n`, with no leading zero. */
  function Decimal(n: nat): (r: JsString)
    ensures |r| > 0 && AllDigits(r, 0, |r|)
    decreases n
  {
    if n < 10 then [DigitOf(n)] else Decimal(n / 10) + [DigitOf(n % 10)]
  }

  /** The numeral of `n` has no leading zero and reads back as `n`. */
  lemma {:induction false} DecimalSound(n: nat)
    ensures IsCanonical(Decimal(n)) && DecimalValue(Decimal(n)) == n
    decreases n
  {
    if n >= 10 {
      DecimalSound(n / 10);
      var r := Decimal(n);
      assert r[..|r| - 1] == Decimal(n / 10);
    }
  }

  /** A digit run without a leading zero has a nonzero value when it starts with a nonzero digit. */
  lemma {:induction false} LeadingDigitPositive(m: JsString)
    requires |m| > 0 && AllDigits(m, 0, |m|) && m[0] != '0' as int
    ensures DecimalValue(m) >= 1
    decreases |m|
  {
    if |m| > 1 {
      var p := m[..|m| - 1];
      assert p[0] == m[0];
      LeadingDigitPositive(p);
    }
  }

  /** A canonical digit run is the numeral of its value. */
  lemma {:induction false} CanonicalIsDecimal(m: JsString)
    requires |m| > 0 && AllDigits(m, 0, |m|) && IsCanonical(m)
    ensures Decimal(DecimalValue(m)) == m
    decreases |m|
  {
    var v := DecimalValue(m);
    if |m| == 1 {
      assert m[..0] == [] && DecimalValue(m[..0]) == 0;
      assert v == DigitValue(m[0]);
      assert m == [DigitOf(v)];
    } else {
      var p := m[..|m| - 1];
      assert p[0] == m[0];
      LeadingDigitPositive(p);
      CanonicalIsDecimal(p);
      assert v / 10 == DecimalValue(p) && v % 10 == DigitValue(m[|m| - 1]);
      assert m == p + [m[|m| - 1]];
    }
  }

  /** `JSON.parse` undoes `Decimal`, and a digit run parses to `n` exactly when it is `Decimal(n)`. */
  lemma ParseDecimal(m: JsString, n: nat)
    requires |m| > 0 && AllDigits(m, 0, |m|)
    ensures Parse(Decimal(n)) == Some(Number(n))
    ensures Parse(m) == Some(Number(n)) <==> m == Decimal(n)
  {
    DecimalSound(n);
    if Parse(m) == Some(Number(n)) {
      CanonicalIsDecimal(m);
    }
  }
}
