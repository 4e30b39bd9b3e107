/**
 * One match of the key pattern
 *   \[\s*('(?:\\.|[^\\'])*'|"(?:\\.|[^\\"])*"|\d+)\s*\]|\.([$_A-Za-z][$_A-Za-z0-9]*)|\s+
 * anchored at a cursor, built from the pieces of `Lexer`; the words the
 * pattern accepts; and the fact that a match depends only on the code units
 * it covers.
 */
module KeyToken {
  import opened Text
  import opened Lexer

  // ---------------------------------------------------------------------------
  // The words of the key pattern
  // ---------------------------------------------------------------------------

  /** `\s+` */
  predicate IsSpaceWord(w: JsString) {
    |w| >= 1 && AllWs(w, 0, |w|)
  }

  /** `\.([$_A-Za-z][$_A-Za-z0-9]*)` */
  predicate IsDotWord(w: JsString) {
    |w| >= 2 && w[0] == Period && IsIdentifier(w[1..])
  }

  /** `s[i..j]` is `[`, whitespace, the literal `s[p..k]`, whitespace, `]`. */
  predicate BracketSpan(s: JsString, i: nat, j: nat, p: nat, k: nat)
    requires i <= j <= |s|
  {
    && i + 1 <= p < k <= j - 1
    && s[i] == OpenBracket && s[j - 1] == CloseBracket
    && AllWs(s, i + 1, p) && LiteralAt(s, p, k) && AllWs(s, k, j - 1)
  }

  /** `\[\s*(lit)\s*\]` as a whole word, with the captured literal `lit`. */
  ghost predicate IsBracketWord(w: JsString, lit: JsString) {
    exists p: nat, k: nat :: BracketSpan(w, 0, |w|, p, k) && w[p..k] == lit
  }

  /** Any word the key pattern accepts as a whole. */
  ghost predicate IsKeyWord(w: JsString) {
    || IsSpaceWord(w)
    || IsDotWord(w)
    || exists p: nat, k: nat :: BracketSpan(w, 0, |w|, p, k)
  }

  // ---------------------------------------------------------------------------
  // The matcher
  // ---------------------------------------------------------------------------

  /**
   * One match of the key pattern: its length, and for a bracket the captured
   * literal (group 1) and for a dot the captured identifier (group 2).
   */
  datatype Token =
    | Bracket(len: nat, literal: JsString)
    | Dot(len: nat, name: JsString)
    | Space(len: nat)

  /** The key pattern anchored at `i`: the token that starts exactly there, if any. */
  function LexAt(s: JsString, i: nat): (r: Option<Token>)
    requires i <= |s|
    ensures r.Some? ==> i < |s| && 0 < r.value.len <= |s| - i
    ensures r.Some? ==> (r.value.Bracket? <==> s[i] == OpenBracket)
    ensures r.Some? ==> (r.value.Dot? <==> s[i] == Period)
    ensures r.Some? ==> (r.value.Space? <==> IsWs(s[i]))
    ensures r.Some? && r.value.Bracket? ==> IsLiteral(r.value.literal)
    ensures r.Some? && r.value.Dot? ==> IsIdentifier(r.value.name)
  {
    if i == |s| then None
    else if s[i] == OpenBracket then BracketAt(s, i)
    else if s[i] == Period then DotAt(s, i)
    else if IsWs(s[i]) then Some(Space(WsEnd(s, i) - i))
    else None
  }

  /** `\[\s*(lit)\s*\]` anchored at the `[` at `i`. */
  function BracketAt(s: JsString, i: nat): (r: Option<Token>)
    requires i < |s| && s[i] == OpenBracket
    ensures r.Some? ==> r.value.Bracket? && 0 < r.value.len <= |s| - i && IsLiteral(r.value.literal)
  {
    var p := WsEnd(s, i + 1);
    match LiteralEnd(s, p)
    case None => None
    case Some(k) =>
      var c := WsEnd(s, k);
      LiteralSlice(s, p, k);
      if c < |s| && s[c] == CloseBracket then Some(Bracket(c + 1 - i, s[p..k])) else None
  }

  /** `\.([$_A-Za-z][$_A-Za-z0-9]*)` anchored at the `.` at `i`. */
  function DotAt(s: JsString, i: nat): (r: Option<Token>)
    requires i < |s| && s[i] == Period
    ensures r.Some? ==> r.value.Dot? && 0 < r.value.len <= |s| - i && IsIdentifier(r.value.name)
  {
    match IdentEnd(s, i + 1)
    case None => None
    case Some(e) => Some(Dot(e - i, s[i + 1..e]))
  }

  // ---------------------------------------------------------------------------
  // Brackets: the matcher against `BracketSpan`
  // ---------------------------------------------------------------------------

  /** A bracket match covers a bracket span whose literal is the captured one. */
  lemma BracketSound(s: JsString, i: nat)
    requires i < |s| && s[i] == OpenBracket
    requires BracketAt(s, i).Some?
    ensures var t := BracketAt(s, i).value;
      var p := WsEnd(s, i + 1);
      && LiteralEnd(s, p).Some?
      && BracketSpan(s, i, i + t.len, p, LiteralEnd(s, p).value)
      && t.literal == s[p..LiteralEnd(s, p).value]
  {
  }

  /** The span `s[i..j]` of a bracket match and its literal `s[p..k]`, named. */
  lemma BracketSpanOf(s: JsString, i: nat) returns (j: nat, p: nat, k: nat)
    requires i < |s| && s[i] == OpenBracket
    requires BracketAt(s, i).Some?
    ensures i <= p <= k <= j <= |s| && BracketSpan(s, i, j, p, k)
    ensures BracketAt(s, i) == Some(Bracket(j - i, s[p..k]))
  {
    BracketSound(s, i);
    p := WsEnd(s, i + 1);
    k := LiteralEnd(s, p).value;
    j := i + BracketAt(s, i).value.len;
  }

  /** Every bracket span starting at `i` is the match `BracketAt` finds. */
  lemma BracketComplete(s: JsString, i: nat, j: nat, p: nat, k: nat)
    requires i <= j <= |s|
    requires BracketSpan(s, i, j, p, k)
    ensures BracketAt(s, i) == Some(Bracket(j - i, s[p..k]))
  {
    assert !IsWs(s[p]);
    WsEndUnique(s, i + 1, p);
    assert k < j - 1 ==> IsWs(s[k]);
    LiteralEndComplete(s, p, k);
    WsEndUnique(s, k, j - 1);
  }

  /** Whitespace runs read the same inside a window. */
  lemma AllWsShift(s: JsString, a: nat, b: nat, x: nat, y: nat)
    requires a <= x <= y <= b <= |s|
    ensures AllWs(s[a..b], x - a, y - a) <==> AllWs(s, x, y)
  {
    var w := s[a..b];
    assert forall m :: x - a <= m < y - a ==> w[m] == s[a + m];
  }

  /** A bracket span reads the same inside a window that contains it. */
  lemma BracketSpanShift(s: JsString, a: nat, b: nat, i: nat, j: nat, p: nat, k: nat)
    requires a <= i <= j <= b <= |s|
    requires i <= p <= k <= j
    ensures BracketSpan(s[a..b], i - a, j - a, p - a, k - a) <==> BracketSpan(s, i, j, p, k)
  {
    if i + 1 <= p < k <= j - 1 {
      assert s[a..b][i - a] == s[i] && s[a..b][j - 1 - a] == s[j - 1];
      AllWsShift(s, a, b, i + 1, p);
      LiteralAtShift(s, a, b, p, k);
      AllWsShift(s, a, b, k, j - 1);
    }
  }

  // ---------------------------------------------------------------------------
  // The matcher against the words of the pattern
  // ---------------------------------------------------------------------------

  /** The word a token covers has the shape the key pattern gives it; runs are taken whole. */
  lemma LexSound(s: JsString, i: nat)
    requires i <= |s|
    requires LexAt(s, i).Some?
    ensures var t := LexAt(s, i).value; var w := s[i..i + t.len];
      match t
      case Bracket(_, lit) => IsBracketWord(w, lit)
      case Dot(_, name) => IsDotWord(w) && w[1..] == name && (i + t.len == |s| || !IsIdentPart(s[i + t.len]))
      case Space(_) => IsSpaceWord(w) && (i + t.len == |s| || !IsWs(s[i + t.len]))
  {
    var t := LexAt(s, i).value;
    if s[i] == OpenBracket {
      BracketWordSound(s, i);
    } else if s[i] == Period {
      DotSound(s, i);
    } else {
      AllWsShift(s, i, i + t.len, i, i + t.len);
    }
  }

  lemma BracketWordSound(s: JsString, i: nat)
    requires i < |s| && s[i] == OpenBracket
    requires BracketAt(s, i).Some?
    ensures var t := BracketAt(s, i).value; IsBracketWord(s[i..i + t.len], t.literal)
  {
    var j, p, k := BracketSpanOf(s, i);
    BracketSpanWord(s, i, j, p, k);
  }

  /** A bracket span, cut out of the text, is a bracket word with the same literal. */
  lemma BracketSpanWord(s: JsString, i: nat, j: nat, p: nat, k: nat)
    requires i <= p <= k <= j <= |s| && BracketSpan(s, i, j, p, k)
    ensures IsBracketWord(s[i..j], s[p..k])
  {
    BracketSpanShift(s, i, j, i, j, p, k);
    WindowSlice(s, i, j, p, k);
    var w := s[i..j];
    assert BracketSpan(w, 0, |w|, p - i, k - i) && w[p - i..k - i] == s[p..k];
  }

  lemma DotSound(s: JsString, i: nat)
    requires i < |s| && s[i] == Period
    requires DotAt(s, i).Some?
    ensures var t := DotAt(s, i).value; var w := s[i..i + t.len];
      IsDotWord(w) && w[1..] == t.name && (i + t.len == |s| || !IsIdentPart(s[i + t.len]))
  {
    var t := DotAt(s, i).value;
    SliceOfSlice(s, i, i + t.len, 1, t.len);
  }

  /**
   * When some prefix of `s[i..]` is a word of the key pattern, a token starts
   * at `i`; so when `LexAt` finds none, the regular expression has no match
   * there either.
   */
  lemma LexComplete(s: JsString, i: nat, j: nat)
    requires i < j <= |s|
    requires IsKeyWord(s[i..j])
    ensures LexAt(s, i).Some?
  {
    var w := s[i..j];
    assert w[0] == s[i];
    if IsSpaceWord(w) {
    } else if IsDotWord(w) {
      assert w[1..][0] == s[i + 1];
    } else {
      var p: nat, k: nat :| BracketSpan(w, 0, |w|, p, k);
      BracketSpanShift(s, i, j, i, j, i + p, i + k);
      BracketComplete(s, i, j, i + p, i + k);
    }
  }

  // ---------------------------------------------------------------------------
  // Locality: a match depends only on the code units it covers
  // ---------------------------------------------------------------------------

  /**
   * The token at `i` is the same inside any window `s[a..b]` that contains it,
   * and when the window reaches the end of `s` the absence of a token is kept too.
   */
  lemma LexAtWindow(s: JsString, a: nat, b: nat, i: nat)
    requires a <= i <= b <= |s|
    requires b == |s| || (LexAt(s, i).Some? && i + LexAt(s, i).value.len <= b)
    ensures LexAt(s[a..b], i - a) == LexAt(s, i)
  {
    if i < b {
      assert s[a..b][i - a] == s[i];
      if s[i] == OpenBracket {
        BracketWindow(s, a, b, i);
      } else if s[i] == Period {
        DotWindow(s, a, b, i);
      } else if IsWs(s[i]) {
        WsEndWindow(s, a, b, i);
      }
    }
  }

  lemma BracketWindow(s: JsString, a: nat, b: nat, i: nat)
    requires a <= i < b <= |s| && s[i] == OpenBracket
    requires b == |s| || (BracketAt(s, i).Some? && i + BracketAt(s, i).value.len <= b)
    ensures s[a..b][i - a] == OpenBracket && BracketAt(s[a..b], i - a) == BracketAt(s, i)
  {
    assert s[a..b][i - a] == s[i];
    if BracketAt(s, i).Some? {
      BracketIntoWindow(s, a, b, i);
    } else if BracketAt(s[a..b], i - a).Some? {
      BracketOutOfWindow(s, a, b, i);
    }
  }

  lemma BracketIntoWindow(s: JsString, a: nat, b: nat, i: nat)
    requires a <= i < b <= |s| && s[i] == OpenBracket
    requires BracketAt(s, i).Some? && i + BracketAt(s, i).value.len <= b
    ensures s[a..b][i - a] == OpenBracket && BracketAt(s[a..b], i - a) == BracketAt(s, i)
  {
    assert s[a..b][i - a] == s[i];
    var j, p, k := BracketSpanOf(s, i);
    BracketSpanWindow(s, a, b, i, j, p, k);
  }

  lemma BracketOutOfWindow(s: JsString, a: nat, b: nat, i: nat)
    requires a <= i < b <= |s| && s[a..b][i - a] == OpenBracket
    requires BracketAt(s[a..b], i - a).Some?
    ensures s[i] == OpenBracket && BracketAt(s, i).Some?
  {
    var w := s[a..b];
    assert w[i - a] == s[i];
    var j, p, k := BracketSpanOf(w, i - a);
    BracketSpanUnwindow(s, a, b, i, j, p, k);
  }

  /** A bracket span inside the window is matched inside the window. */
  lemma BracketSpanWindow(s: JsString, a: nat, b: nat, i: nat, j: nat, p: nat, k: nat)
    requires a <= i <= j <= b <= |s| && i <= p <= k <= j
    requires BracketSpan(s, i, j, p, k)
    ensures BracketAt(s[a..b], i - a) == Some(Bracket(j - i, s[p..k]))
  {
    BracketSpanShift(s, a, b, i, j, p, k);
    BracketComplete(s[a..b], i - a, j - a, p - a, k - a);
    SliceOfSlice(s, a, b, p - a, k - a);
  }

  /** A bracket span found inside the window `s[a..b]` is matched in the whole text. */
  lemma BracketSpanUnwindow(s: JsString, a: nat, b: nat, i: nat, j: nat, p: nat, k: nat)
    requires a <= i <= b <= |s| && i - a <= p <= k <= j <= b - a
    requires BracketSpan(s[a..b], i - a, j, p, k)
    ensures BracketAt(s, i) == Some(Bracket(j - (i - a), s[a + p..a + k]))
  {
    BracketSpanShift(s, a, b, i, a + j, a + p, a + k);
    BracketComplete(s, i, a + j, a + p, a + k);
  }

  lemma DotWindow(s: JsString, a: nat, b: nat, i: nat)
    requires a <= i < b <= |s| && s[i] == Period
    requires b == |s| || (LexAt(s, i).Some? && i + LexAt(s, i).value.len <= b)
    ensures LexAt(s[a..b], i - a) == LexAt(s, i)
  {
    var w := s[a..b];
    assert w[i - a] == s[i];
    IdentEndWindow(s, a, b, i + 1);
    match IdentEnd(s, i + 1)
    case None =>
    case Some(e) => SliceOfSlice(s, a, b, i + 1 - a, e - a);
  }
}
