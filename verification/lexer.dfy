/**
 * The regular-expression pieces of the scanner, as anchored matchers over an
 * explicit cursor.
 *
 * The key pattern of the scanner is
 *   \[\s*('(?:\\.|[^\\'])*'|"(?:\\.|[^\\"])*"|\d+)\s*\]|\.([$_A-Za-z][$_A-Za-z0-9]*)|\s+
 * and its identifier pattern is `\s*([$_A-Za-z][$_A-Za-z0-9]*)`. Every piece of
 * them has at most one way to match at a given position (a quoted body ends at
 * its first unescaped quote, and every run is followed by a code unit that
 * cannot continue it), so backtracking never changes the outcome and each
 * piece is modelled as a greedy function from a cursor to the end of its
 * match. The three alternatives of the key pattern start with `[`, `.` and
 * whitespace respectively, so the first code unit selects the alternative.
 */
module Lexer {
  import opened Text

  // ---------------------------------------------------------------------------
  // Reference languages (what the regular expressions accept, as predicates)
  // ---------------------------------------------------------------------------

  predicate IsQuote(c: CodeUnit) {
    c == SingleQuote || c == DoubleQuote
  }

  /**
   * `(?:\\.|[^\\q])*`: the body of a literal quoted with `q`. A backslash
   * escapes any code unit except a line terminator; outside an escape neither
   * a backslash nor `q` may appear (the other quote and raw line terminators may).
   */
  predicate IsBody(w: JsString, q: CodeUnit)
    decreases |w|
  {
    if |w| == 0 then true
    else if w[0] == Backslash then |w| >= 2 && !IsLineTerminator(w[1]) && IsBody(w[2..], q)
    else w[0] != q && IsBody(w[1..], q)
  }

  /** `'…'|"…"`: a quoted literal, its quotes included. */
  predicate IsQuoted(w: JsString) {
    |w| >= 2 && IsQuote(w[0]) && w[|w| - 1] == w[0] && IsBody(w[1..|w| - 1], w[0])
  }

  /** `'…'|"…"|\d+`: what may stand between the brackets of a bracket token. */
  predicate IsLiteral(w: JsString) {
    IsQuoted(w) || (|w| >= 1 && AllDigits(w, 0, |w|))
  }

  // ---------------------------------------------------------------------------
  // Greedy runs
  // ---------------------------------------------------------------------------

  /** End of the greedy `\s*` starting at `i`. */
  function WsEnd(s: JsString, i: nat): (e: nat)
    requires i <= |s|
    ensures i <= e <= |s|
    ensures AllWs(s, i, e)
    ensures e == |s| || !IsWs(s[e])
    decreases |s| - i
  {
    if i < |s| && IsWs(s[i]) then WsEnd(s, i + 1) else i
  }

  /** End of the greedy `[$_A-Za-z0-9]*` starting at `i`. */
  function PartEnd(s: JsString, i: nat): (e: nat)
    requires i <= |s|
    ensures i <= e <= |s|
    ensures forall k :: i <= k < e ==> IsIdentPart(s[k])
    ensures e == |s| || !IsIdentPart(s[e])
    decreases |s| - i
  {
    if i < |s| && IsIdentPart(s[i]) then PartEnd(s, i + 1) else i
  }

  /** End of the greedy `\d*` starting at `i`. */
  function DigitsEnd(s: JsString, i: nat): (e: nat)
    requires i <= |s|
    ensures i <= e <= |s|
    ensures AllDigits(s, i, e)
    ensures e == |s| || !IsDigit(s[e])
    decreases |s| - i
  {
    if i < |s| && IsDigit(s[i]) then DigitsEnd(s, i + 1) else i
  }

  /** A maximal whitespace run is the one `WsEnd` finds. */
  lemma WsEndUnique(s: JsString, i: nat, e: nat)
    requires i <= e <= |s|
    requires AllWs(s, i, e)
    requires e == |s| || !IsWs(s[e])
    ensures WsEnd(s, i) == e
  {
  }

  lemma PartEndUnique(s: JsString, i: nat, e: nat)
    requires i <= e <= |s|
    requires forall k :: i <= k < e ==> IsIdentPart(s[k])
    requires e == |s| || !IsIdentPart(s[e])
    ensures PartEnd(s, i) == e
  {
  }

  lemma DigitsEndUnique(s: JsString, i: nat, e: nat)
    requires i <= e <= |s|
    requires AllDigits(s, i, e)
    requires e == |s| || !IsDigit(s[e])
    ensures DigitsEnd(s, i) == e
  {
  }

  // ---------------------------------------------------------------------------
  // Identifiers
  // ---------------------------------------------------------------------------

  /** `[$_A-Za-z][$_A-Za-z0-9]*` anchored at `i`: the end of the identifier, if one starts there. */
  function IdentEnd(s: JsString, i: nat): (r: Option<nat>)
    requires i <= |s|
    ensures r.Some? <==> i < |s| && IsIdentStart(s[i])
    ensures r.Some? ==> i < r.value <= |s| && IsIdentifier(s[i..r.value])
    ensures r.Some? ==> r.value == |s| || !IsIdentPart(s[r.value])
  {
    if i < |s| && IsIdentStart(s[i]) then Some(PartEnd(s, i + 1)) else None
  }

  // ---------------------------------------------------------------------------
  // Quoted literals and bracket contents
  // ---------------------------------------------------------------------------

  /** `(?:\\.|[^\\q])*q` anchored at `i`: the position of the closing quote. */
  function BodyEnd(s: JsString, i: nat, q: CodeUnit): (r: Option<nat>)
    requires i <= |s|
    requires IsQuote(q)
    ensures r.Some? ==> i <= r.value < |s| && s[r.value] == q && IsBody(s[i..r.value], q)
    decreases |s| - i
  {
    if i == |s| then None
    else if s[i] == q then Some(i)
    else if s[i] == Backslash then
      if i + 1 < |s| && !IsLineTerminator(s[i + 1]) then
        var r := BodyEnd(s, i + 2, q);
        if r.Some? then SliceOfSlice(s, i, r.value, 2, r.value - i); r else r
      else
        None
    else
      var r := BodyEnd(s, i + 1, q);
      if r.Some? then SliceOfSlice(s, i, r.value, 1, r.value - i); r else r
  }

  /**
   * The closing quote `BodyEnd` finds is the only one possible: any `j` at which
   * `s[i..j]` is a body followed by `q` is that position.
   */
  lemma {:induction false} BodyEndComplete(s: JsString, i: nat, q: CodeUnit, j: nat)
    requires IsQuote(q)
    requires i <= j < |s| && s[j] == q && IsBody(s[i..j], q)
    ensures BodyEnd(s, i, q) == Some(j)
    decreases j - i
  {
    var w := s[i..j];
    if j > i {
      assert w[0] == s[i];
      if s[i] == Backslash {
        assert w[1] == s[i + 1];
        SliceOfSlice(s, i, j, 2, j - i);
        BodyEndComplete(s, i + 2, q, j);
      } else {
        SliceOfSlice(s, i, j, 1, j - i);
        BodyEndComplete(s, i + 1, q, j);
      }
    }
  }

  /** `s[i..j]` is a literal: a quoted one (the quote at `i`) or a digit run. */
  predicate LiteralAt(s: JsString, i: nat, j: nat)
    requires i <= j <= |s|
  {
    || (i + 2 <= j && IsQuote(s[i]) && s[j - 1] == s[i] && IsBody(s[i + 1..j - 1], s[i]))
    || (i < j && AllDigits(s, i, j))
  }

  lemma LiteralSlice(s: JsString, i: nat, j: nat)
    requires i <= j <= |s|
    ensures IsLiteral(s[i..j]) <==> LiteralAt(s, i, j)
  {
    var w := s[i..j];
    if |w| >= 2 {
      assert w[0] == s[i] && w[|w| - 1] == s[j - 1];
      SliceOfSlice(s, i, j, 1, |w| - 1);
    }
    assert AllDigits(w, 0, |w|) <==> AllDigits(s, i, j) by {
      assert forall k :: 0 <= k < |w| ==> w[k] == s[i + k];
    }
  }

  /** `s[a..b]` holds the literal `s[p..k]` at the shifted position. */
  lemma LiteralAtShift(s: JsString, a: nat, b: nat, p: nat, k: nat)
    requires a <= p <= k <= b <= |s|
    ensures LiteralAt(s[a..b], p - a, k - a) <==> LiteralAt(s, p, k)
  {
    var w := s[a..b];
    if p - a + 2 <= k - a {
      assert w[p - a] == s[p] && w[k - a - 1] == s[k - 1];
      SliceOfSlice(s, a, b, p - a + 1, k - a - 1);
    }
    assert AllDigits(w, p - a, k - a) <==> AllDigits(s, p, k) by {
      assert forall m :: p - a <= m < k - a ==> w[m] == s[a + m];
    }
  }

  /** `'…'|"…"` anchored at `i`: the end of the quoted literal (after its closing quote). */
  function QuotedEnd(s: JsString, i: nat): (r: Option<nat>)
    requires i <= |s|
    ensures r.Some? ==> i < |s| && IsQuote(s[i]) && i + 2 <= r.value <= |s|
    ensures r.Some? ==> s[r.value - 1] == s[i] && IsBody(s[i + 1..r.value - 1], s[i])
  {
    if i < |s| && IsQuote(s[i]) then
      match BodyEnd(s, i + 1, s[i])
      case None => None
      case Some(c) => Some(c + 1)
    else None
  }

  /**
   * `'…'|"…"|\d+` anchored at `i`: the end of the bracket literal, a quoted
   * literal or a whole digit run.
   */
  function LiteralEnd(s: JsString, i: nat): (r: Option<nat>)
    requires i <= |s|
    ensures r.Some? ==> i < r.value <= |s| && LiteralAt(s, i, r.value)
    ensures r.Some? && IsDigit(s[i]) ==> r.value == |s| || !IsDigit(s[r.value])
  {
    if i < |s| && IsQuote(s[i]) then QuotedEnd(s, i)
    else if i < |s| && IsDigit(s[i]) then Some(DigitsEnd(s, i))
    else None
  }

  /**
   * Among the literals starting at `i`, `LiteralEnd` finds the one that a
   * following `\s*\]` can continue: a quoted literal is unique, and a digit
   * run is taken whole.
   */
  lemma LiteralEndComplete(s: JsString, i: nat, j: nat)
    requires i < j <= |s|
    requires LiteralAt(s, i, j)
    requires j < |s| ==> !IsDigit(s[j])
    ensures LiteralEnd(s, i) == Some(j)
  {
    if IsQuote(s[i]) {
      if !(i < j && AllDigits(s, i, j)) {
        BodyEndComplete(s, i + 1, s[i], j - 1);
      }
    } else {
      DigitsEndUnique(s, i, j);
    }
  }

  // ---------------------------------------------------------------------------
  // Locality: a run depends only on the code units it covers
  // ---------------------------------------------------------------------------

  /** A run that ends inside the window `[a, b)` is the same run inside `s[a..b]`. */
  lemma WsEndWindow(s: JsString, a: nat, b: nat, i: nat)
    requires a <= i <= b <= |s|
    requires WsEnd(s, i) <= b
    ensures WsEnd(s[a..b], i - a) == WsEnd(s, i) - a
  {
    var e := WsEnd(s, i);
    assert e - a == b - a || !IsWs(s[a..b][e - a]) by {
      if e < b { assert s[a..b][e - a] == s[e]; }
    }
    WsEndUnique(s[a..b], i - a, e - a);
  }

  lemma PartEndWindow(s: JsString, a: nat, b: nat, i: nat)
    requires a <= i <= b <= |s|
    requires PartEnd(s, i) <= b
    ensures PartEnd(s[a..b], i - a) == PartEnd(s, i) - a
  {
    var e := PartEnd(s, i);
    if e < b { assert s[a..b][e - a] == s[e]; }
    PartEndUnique(s[a..b], i - a, e - a);
  }

  lemma IdentEndWindow(s: JsString, a: nat, b: nat, i: nat)
    requires a <= i <= b <= |s|
    requires b == |s| || (IdentEnd(s, i).Some? && IdentEnd(s, i).value <= b)
    ensures IdentEnd(s[a..b], i - a) == (match IdentEnd(s, i) case None => None case Some(c) => Some(c - a))
  {
    if i < b {
      assert s[a..b][i - a] == s[i];
      if IsIdentStart(s[i]) {
        PartEndWindow(s, a, b, i + 1);
      }
    }
  }
}
