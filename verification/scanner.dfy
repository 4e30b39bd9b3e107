/**
 * The j2ref scanner: an identifier, then a contiguous run of key tokens,
 * each bracket token decoded with `JSON.parse`.
 *
 * `readKeys` and `j2ref` drive a global regular expression with `exec`,
 * starting at a cursor and stopping at the first match that does not start
 * exactly there. A match that does not start at the cursor is found only when
 * no token starts at the cursor, so the loop is the anchored matcher `LexAt`
 * applied until it fails (`Scan`).
 */
module Scanner {
  import opened Text
  import opened Lexer
  import opened Json
  import opened Quoting
  import opened KeyToken

  /** One entry of the returned key list. */
  datatype Key = Str(text: JsString) | Num(value: nat) | Undefined

  // ---------------------------------------------------------------------------
  // Decoding a bracket literal
  // ---------------------------------------------------------------------------

  /**
   * The value a bracket pushes: a single-quoted literal is rewritten into a
   * double-quoted one, then the text goes to `JSON.parse`; a throw gives
   * `undefined`.
   */
  function DecodeLiteral(lit: JsString): (k: Key)
    requires IsLiteral(lit)
    ensures IsQuote(lit[0]) ==> !k.Num?
    ensures IsDigit(lit[0]) ==> !k.Str? && (k.Num? <==> IsCanonical(lit))
  {
    var m := if lit[0] == SingleQuote then RewriteSingle(lit) else lit;
    match Parse(m)
    case None => Undefined
    case Some(String(t)) => Str(t)
    case Some(Number(n)) => Num(n)
  }

  /** A token as the pattern matches it: a bracket always holds a literal. */
  predicate WellFormed(t: Token) {
    t.Bracket? ==> IsLiteral(t.literal)
  }

  /**
   * The keys the loop body pushes for one token, `(m && dot) || bracket`:
   * the decoded literal for a bracket, the name for a dot, nothing for
   * whitespace.
   */
  function KeyOf(t: Token): (r: seq<Key>)
    requires WellFormed(t)
    ensures |r| == if t.Space? then 0 else 1
    ensures t.Dot? ==> r == [Str(t.name)]
  {
    match t
    case Bracket(_, lit) => [DecodeLiteral(lit)]
    case Dot(_, name) => [Str(name)]
    case Space(_) => []
  }

  // ---------------------------------------------------------------------------
  // The token loop
  // ---------------------------------------------------------------------------

  /** One match as the loop sees it: how far it moves the cursor, and the keys it pushes. */
  datatype Step = Step(len: nat, keys: seq<Key>)

  /**
   * An anchored matcher: the step a sticky pattern takes exactly at a cursor,
   * if it matches there. The loop below is written for any matcher, and the
   * scanner uses it with `KeyPattern`.
   */
  type Matcher = (JsString, nat) -> Option<Step>

  /** Every match of `m` is non-empty and lies inside the text. */
  ghost predicate IsMatcher(m: Matcher) {
    forall s: JsString, i: nat :: m(s, i).Some? ==> 0 < m(s, i).value.len && i + m(s, i).value.len <= |s|
  }

  /** The key pattern, anchored at the cursor; past the end of the text it matches nothing. */
  function KeyPattern(s: JsString, i: nat): (r: Option<Step>)
    ensures r.Some? ==> i < |s| && 0 < r.value.len && i + r.value.len <= |s|
    ensures r.Some? <==> i <= |s| && LexAt(s, i).Some?
  {
    if i <= |s| then
      match LexAt(s, i)
      case None => None
      case Some(t) => Some(Step(t.len, KeyOf(t)))
    else None
  }

  lemma KeyPatternIsMatcher()
    ensures IsMatcher(KeyPattern)
  {
  }

  /**
   * Matches from the cursor `i` on, each starting where the previous one
   * ended, until none starts: the steps, and the position where the chain ends.
   */
  function Scan(m: Matcher, s: JsString, i: nat): (r: (seq<Step>, nat))
    requires IsMatcher(m) && i <= |s|
    ensures i <= r.1 <= |s| && m(s, r.1).None?
    ensures |r.0| <= r.1 - i
    decreases |s| - i
  {
    match m(s, i)
    case None => ([], i)
    case Some(t) =>
      var rest := Scan(m, s, i + t.len);
      ([t] + rest.0, rest.1)
  }

  /** The keys a sequence of steps pushes, in order. */
  function KeysOf(steps: seq<Step>): seq<Key>
    decreases |steps|
  {
    if |steps| == 0 then [] else steps[0].keys + KeysOf(steps[1..])
  }

  /** One turn of the loop: the first match's keys, then the keys of the chain after it. */
  lemma ScanStep(m: Matcher, s: JsString, i: nat)
    requires IsMatcher(m) && i <= |s| && m(s, i).Some?
    ensures var t := m(s, i).value;
      && i + t.len <= |s|
      && Scan(m, s, i).1 == Scan(m, s, i + t.len).1
      && KeysOf(Scan(m, s, i).0) == t.keys + KeysOf(Scan(m, s, i + t.len).0)
  {
    var t := m(s, i).value;
    assert Scan(m, s, i).0[1..] == Scan(m, s, i + t.len).0;
  }

  /** `toks` are matches of `m` laid end to end from `i` to `e`. */
  ghost predicate Chain(m: Matcher, s: JsString, i: nat, toks: seq<Step>, e: nat)
    decreases |toks|
  {
    if |toks| == 0 then i == e
    else m(s, i) == Some(toks[0]) && Chain(m, s, i + toks[0].len, toks[1..], e)
  }

  /** `Scan` follows a chain of matches that cannot be extended. */
  lemma {:induction false} ScanIsChain(m: Matcher, s: JsString, i: nat)
    requires IsMatcher(m) && i <= |s|
    ensures Chain(m, s, i, Scan(m, s, i).0, Scan(m, s, i).1)
    decreases |s| - i
  {
    match m(s, i)
    case None =>
    case Some(t) =>
      ScanIsChain(m, s, i + t.len);
      assert Scan(m, s, i).0[1..] == Scan(m, s, i + t.len).0;
  }

  /** Any chain of matches that cannot be extended is the one `Scan` follows. */
  lemma {:induction false} ChainIsScan(m: Matcher, s: JsString, i: nat, toks: seq<Step>, e: nat)
    requires IsMatcher(m) && i <= |s|
    requires Chain(m, s, i, toks, e) && e <= |s| && m(s, e).None?
    ensures Scan(m, s, i) == (toks, e)
    decreases |toks|
  {
    if |toks| > 0 {
      var t := toks[0];
      ChainIsScan(m, s, i + t.len, toks[1..], e);
      assert toks == [t] + toks[1..];
    }
  }

  /**
   * `m` is local on the window `s[a..b]`: a match inside the window is the
   * match in `s`, and when the window reaches the end of `s` so is a missing one.
   */
  ghost predicate Local(m: Matcher, s: JsString, a: nat, b: nat)
    requires a <= b <= |s|
  {
    forall i :: a <= i <= b && (b == |s| || (m(s, i).Some? && i + m(s, i).value.len <= b)) ==> m(s[a..b], i - a) == m(s, i)
  }

  /**
   * A local matcher scans a window the same way as the whole text, as long as
   * the window ends where the chain ends or at the end of the text.
   */
  lemma {:induction false} ScanWindow(m: Matcher, s: JsString, a: nat, b: nat, i: nat)
    requires IsMatcher(m) && a <= i <= b <= |s| && Local(m, s, a, b)
    requires b == |s| || Scan(m, s, i).1 == b
    ensures Scan(m, s[a..b], i - a) == (Scan(m, s, i).0, Scan(m, s, i).1 - a)
    decreases |s| - i
  {
    var w := s[a..b];
    match m(s, i)
    case None =>
      if b < |s| {
        assert i - a == |w|;
      }
      assert m(w, i - a).None?;
    case Some(t) =>
      var j := i + t.len;
      assert Scan(m, s, i) == ([t] + Scan(m, s, j).0, Scan(m, s, j).1);
      assert m(w, i - a) == Some(t);
      ScanWindow(m, s, a, b, j);
      assert j - a == i - a + t.len;
      assert Scan(m, w, i - a) == ([t] + Scan(m, w, j - a).0, Scan(m, w, j - a).1);
  }

  /** A matcher whose matches lie inside the text and that is local on every window. */
  ghost predicate GoodMatcher(m: Matcher) {
    && IsMatcher(m)
    && forall s: JsString, a: nat, b: nat {:trigger Local(m, s, a, b)} :: a <= b <= |s| ==> Local(m, s, a, b)
  }

  /** A chain from 0 is the first match followed by the chain of the text after it. */
  lemma ScanFirst(m: Matcher, s: JsString)
    requires GoodMatcher(m) && m(s, 0).Some?
    ensures var k := m(s, 0).value.len;
      && k <= |s|
      && ChainLength(m, s) == k + ChainLength(m, s[k..])
      && ChainKeys(m, s) == m(s, 0).value.keys + ChainKeys(m, s[k..])
  {
    var k := m(s, 0).value.len;
    ScanStep(m, s, 0);
    assert Local(m, s, k, |s|);
    ScanWindow(m, s, k, |s|, k);
    assert s[k..|s|] == s[k..];
  }

  /** The key pattern is local on every window. */
  lemma KeyPatternLocal(s: JsString, a: nat, b: nat)
    requires a <= b <= |s|
    ensures Local(KeyPattern, s, a, b)
  {
    forall i | a <= i <= b && (b == |s| || (KeyPattern(s, i).Some? && i + KeyPattern(s, i).value.len <= b))
      ensures KeyPattern(s[a..b], i - a) == KeyPattern(s, i)
    {
      LexAtWindow(s, a, b, i);
    }
  }

  /** The keys of the chain `m` matches from position 0 of `s`. */
  function ChainKeys(m: Matcher, s: JsString): seq<Key>
    requires IsMatcher(m)
  {
    KeysOf(Scan(m, s, 0).0)
  }

  /** How far the chain `m` matches from position 0 of `s` runs. */
  function ChainLength(m: Matcher, s: JsString): (n: nat)
    requires IsMatcher(m)
    ensures n <= |s|
  {
    Scan(m, s, 0).1
  }

  /** A chain of steps that push at most one key each pushes no more keys than it covers code units. */
  lemma {:induction false} ChainKeysBound(m: Matcher, s: JsString, i: nat)
    requires IsMatcher(m) && i <= |s|
    requires forall j: nat :: m(s, j).Some? ==> |m(s, j).value.keys| <= 1
    ensures |KeysOf(Scan(m, s, i).0)| <= Scan(m, s, i).1 - i
    decreases |s| - i
  {
    if m(s, i).Some? {
      var t := m(s, i).value;
      ScanStep(m, s, i);
      ChainKeysBound(m, s, i + t.len);
    }
  }

  /** The key pattern's chain pushes no more keys than it covers code units. */
  lemma KeyChainBound(s: JsString)
    ensures |KeysOf(Scan(KeyPattern, s, 0).0)| <= Scan(KeyPattern, s, 0).1
  {
    KeyPatternIsMatcher();
    forall j: nat | KeyPattern(s, j).Some? ensures |KeyPattern(s, j).value.keys| <= 1 {
      KeyStepBound(s, j);
    }
    ChainKeysBound(KeyPattern, s, 0);
  }

  /** A key token pushes at most one key. */
  lemma KeyStepBound(s: JsString, i: nat)
    requires KeyPattern(s, i).Some?
    ensures |KeyPattern(s, i).value.keys| <= 1
  {
  }

  /** `readKeys(s)`: the keys of the chain of key tokens that starts at position 0. */
  function ReadKeys(s: JsString): (r: seq<Key>)
    ensures |r| <= ChainLength(KeyPattern, s)
    ensures LexAt(s, 0).None? ==> r == []
  {
    KeyPatternIsMatcher();
    KeyChainBound(s);
    ChainKeys(KeyPattern, s)
  }

  /**
   * `readSingleKey(s)`: the key of the token at position 0. A whitespace
   * token, and a string where no token starts at 0, give `undefined`.
   */
  function ReadSingleKey(s: JsString): (k: Key)
    ensures k != Undefined ==> |s| > 0 && (s[0] == OpenBracket || s[0] == Period)
    ensures |s| > 0 && s[0] == Period ==> (k.Str? <==> LexAt(s, 0).Some?)
  {
    match LexAt(s, 0)
    case None => Undefined
    case Some(t) =>
      match t
      case Bracket(_, lit) => DecodeLiteral(lit)
      case Dot(_, name) => Str(name)
      case Space(_) => Undefined
  }

  // ---------------------------------------------------------------------------
  // The identifier step
  // ---------------------------------------------------------------------------

  /**
   * What the identifier table's expression `match.index == 0 ? match[0] :
   * undefined` gives for the non-global `identRe`: the identifier when the
   * leftmost match sits at index 0, `undefined` when it sits further on, and
   * a `TypeError` when `identRe` matches nowhere, because `match` is then
   * `null`.
   */
  datatype IdentRead = AtStart(name: JsString) | Elsewhere | Throws

  function IdentAtStart(s: JsString): (r: IdentRead)
    ensures r.AtStart? ==> IsIdentifier(r.name) && r.name <= s
    ensures r.AtStart? <==> |s| > 0 && IsIdentStart(s[0])
    ensures r.AtStart? ==> |r.name| == |s| || !IsIdentPart(s[|r.name|])
    ensures r.Throws? <==> forall k :: 0 <= k < |s| ==> !IsIdentStart(s[k])
  {
    match IdentEnd(s, 0)
    case Some(e) => AtStart(s[..e])
    case None => if exists k :: 0 <= k < |s| && IsIdentStart(s[k]) then Elsewhere else Throws
  }

  /** `\s*([$_A-Za-z][$_A-Za-z0-9]*)` can match starting at `p`. */
  predicate IdentMatchAt(s: JsString, p: nat)
    requires p <= |s|
  {
    WsEnd(s, p) < |s| && IsIdentStart(s[WsEnd(s, p)])
  }

  /**
   * The leftmost `p >= from` where the identifier pattern matches, as
   * `(p, w, e)`: the match is `s[p..e]` and the captured identifier `s[w..e]`.
   */
  function FindIdent(s: JsString, from: nat): (r: Option<(nat, nat, nat)>)
    requires from <= |s|
    ensures r.Some? ==> from <= r.value.0 <= |s| && IdentMatchAt(s, r.value.0)
    ensures r.Some? ==> r.value.1 == WsEnd(s, r.value.0) && IdentEnd(s, r.value.1) == Some(r.value.2)
    ensures r.Some? ==> forall q {:trigger IdentMatchAt(s, q)} :: from <= q < r.value.0 ==> !IdentMatchAt(s, q)
    ensures r.None? ==> forall q {:trigger IdentMatchAt(s, q)} :: from <= q <= |s| ==> !IdentMatchAt(s, q)
    decreases |s| - from
  {
    if IdentMatchAt(s, from) then
      var w := WsEnd(s, from);
      Some((from, w, IdentEnd(s, w).value))
    else if from == |s| then None
    else FindIdent(s, from + 1)
  }

  // ---------------------------------------------------------------------------
  // j2ref
  // ---------------------------------------------------------------------------

  /** The object `j2ref` returns. */
  datatype Reference = Reference(keys: seq<Key>, index: nat, matched: JsString)

  lemma KeyPatternGood()
    ensures GoodMatcher(KeyPattern)
  {
    KeyPatternIsMatcher();
    forall s: JsString, a: nat, b: nat | a <= b <= |s| ensures Local(KeyPattern, s, a, b) {
      KeyPatternLocal(s, a, b);
    }
  }

  /**
   * `j2ref(str, startIndex, matchStart)` with the key pattern's matcher as a
   * parameter. `None` is the `undefined` it returns when no identifier is
   * found at or after `startIndex`, or when `matchStart` is set and the
   * identifier match does not begin exactly at `startIndex`.
   */
  function J2refWith(m: Matcher, s: JsString, startIndex: nat, matchStart: bool): (r: Option<Reference>)
    requires IsMatcher(m)
    ensures r.Some? ==> startIndex <= r.value.index <= r.value.index + |r.value.matched| <= |s|
    ensures r.Some? ==> r.value.matched == s[r.value.index..r.value.index + |r.value.matched|]
    ensures r.Some? ==> m(s, r.value.index + |r.value.matched|).None?
    ensures r.Some? && matchStart ==> r.value.index == startIndex
    ensures r.Some? ==> |r.value.keys| >= 1 && r.value.keys[0].Str? && IsIdentifier(r.value.keys[0].text)
  {
    if startIndex > |s| then None
    else
      match FindIdent(s, startIndex)
      case None => None
      case Some((index, w, e)) =>
        if matchStart && index != startIndex then None
        else
          var rest := Scan(m, s, e);
          Some(Reference([Str(s[w..e])] + KeysOf(rest.0), index, s[index..rest.1]))
  }

  /** `j2ref(str, startIndex, matchStart)`. */
  function J2ref(s: JsString, startIndex: nat, matchStart: bool): (r: Option<Reference>)
    ensures r.Some? ==> startIndex <= r.value.index <= r.value.index + |r.value.matched| <= |s|
    ensures r.Some? ==> r.value.matched == s[r.value.index..r.value.index + |r.value.matched|]
    ensures r.Some? ==> LexAt(s, r.value.index + |r.value.matched|).None?
    ensures r.Some? && matchStart ==> r.value.index == startIndex
    ensures r.Some? ==> |r.value.keys| >= 1 && r.value.keys[0].Str? && IsIdentifier(r.value.keys[0].text)
  {
    KeyPatternIsMatcher();
    J2refWith(KeyPattern, s, startIndex, matchStart)
  }

  // ---------------------------------------------------------------------------
  // Decoding: the literals an author writes decode to what they denote
  // ---------------------------------------------------------------------------

  /** A double-quoted JSON string is a bracket literal that decodes to its text. */
  lemma DecodeQuote(x: JsString)
    ensures IsLiteral(Quote(x)) && DecodeLiteral(Quote(x)) == Str(x)
  {
    var lit := Quote(x);
    assert lit[1..|lit| - 1] == QuoteBody(x);
    QuoteBodyIsBody(x);
    ParseQuote(x);
  }

  /** A single-quoted literal with its quotes, backslashes and controls escaped decodes to its text. */
  lemma DecodeSqQuote(x: JsString)
    ensures IsLiteral(SqQuote(x)) && DecodeLiteral(SqQuote(x)) == Str(x)
  {
    var lit := SqQuote(x);
    assert lit[1..|lit| - 1] == SqBody(x);
    SqBodyIsBody(x);
    RewriteSqQuote(x);
  }

  /**
   * A single-quoted literal holding raw double quotes, and no single quote,
   * backslash or control character, decodes to its text.
   */
  lemma DecodeRawDoubleQuotes(x: JsString)
    requires forall k :: 0 <= k < |x| ==> x[k] != SingleQuote && x[k] != Backslash && x[k] >= 0x20
    ensures IsLiteral([SingleQuote] + x + [SingleQuote]) && DecodeLiteral([SingleQuote] + x + [SingleQuote]) == Str(x)
  {
    RewriteRawDoubleQuotes(x);
    ParseQuote(x);
  }

  /**
   * A digit run decodes to `n` exactly when it is the numeral of `n`, and to
   * `undefined` exactly when it has a leading zero.
   */
  lemma DecodeDigits(lit: JsString, n: nat)
    requires |lit| > 0 && AllDigits(lit, 0, |lit|)
    ensures IsLiteral(lit)
    ensures DecodeLiteral(lit) == Num(n) <==> lit == Decimal(n)
    ensures DecodeLiteral(lit) == Undefined <==> !IsCanonical(lit)
  {
    ParseDecimal(lit, n);
  }

  /**
   * A double-quoted literal goes to `JSON.parse` as it is: it decodes to a
   * string exactly when its body is a JSON string body, and to `undefined`
   * otherwise.
   */
  lemma DecodeDoubleQuoted(lit: JsString)
    requires IsQuoted(lit) && lit[0] == DoubleQuote
    ensures DecodeLiteral(lit).Str? <==> IsJsonStringBody(lit[1..|lit| - 1])
    ensures DecodeLiteral(lit) == Undefined <==> !IsJsonStringBody(lit[1..|lit| - 1])
  {
    ParseQuoted(lit);
  }

  /**
   * A single-quoted literal decodes to a string exactly when its rewritten
   * body is a JSON string body, and to `undefined` otherwise.
   */
  lemma DecodeSingleQuoted(lit: JsString)
    requires IsQuoted(lit) && lit[0] == SingleQuote
    ensures DecodeLiteral(lit).Str? <==> IsJsonStringBody(UnescSingle(EscDblQuotes(lit[1..|lit| - 1])))
    ensures DecodeLiteral(lit) == Undefined <==> !IsJsonStringBody(UnescSingle(EscDblQuotes(lit[1..|lit| - 1])))
  {
    var m := RewriteSingle(lit);
    assert m[1..|m| - 1] == UnescSingle(EscDblQuotes(lit[1..|lit| - 1]));
    ParseQuoted(m);
  }

  /**
   * A quoted literal holding a raw control character (a raw line feed, which
   * the literal pattern admits) decodes to `undefined`, whichever its quotes.
   */
  lemma DecodeControlUndefined(lit: JsString)
    requires IsQuoted(lit) && Controls(lit[1..|lit| - 1]) != []
    ensures DecodeLiteral(lit) == Undefined
  {
    var b := lit[1..|lit| - 1];
    if lit[0] == DoubleQuote {
      if IsJsonStringBody(b) {
        JsonBodyNoControls(b);
      }
      DecodeDoubleQuoted(lit);
    } else {
      var w := UnescSingle(EscDblQuotes(b));
      EscDblQuotesControls(b);
      UnescSingleControls(EscDblQuotes(b));
      if IsJsonStringBody(w) {
        JsonBodyNoControls(w);
      }
      DecodeSingleQuoted(lit);
    }
  }

  /** A double-quoted literal whose first bad escape is `\e`, `e` neither an escape letter nor `u`, decodes to `undefined`. */
  lemma DecodeBadEscape(p: JsString, e: CodeUnit, r: JsString)
    requires IsJsonStringBody(p) && !IsEscapeLetter(e) && e != 'u' as int
    requires IsQuoted([DoubleQuote] + p + [Backslash, e] + r + [DoubleQuote])
    ensures DecodeLiteral([DoubleQuote] + p + [Backslash, e] + r + [DoubleQuote]) == Undefined
  {
    var lit := [DoubleQuote] + p + [Backslash, e] + r + [DoubleQuote];
    assert lit[1..|lit| - 1] == p + [Backslash, e] + r;
    BadEscape(p, e, r);
    DecodeDoubleQuoted(lit);
  }

  /** A double-quoted literal in which, after a valid prefix, `\u` is not followed by four hex digits decodes to `undefined`. */
  lemma DecodeShortUnicode(p: JsString, r: JsString)
    requires IsJsonStringBody(p) && !FourHex(r)
    requires IsQuoted([DoubleQuote] + p + [Backslash, 'u' as int] + r + [DoubleQuote])
    ensures DecodeLiteral([DoubleQuote] + p + [Backslash, 'u' as int] + r + [DoubleQuote]) == Undefined
  {
    var lit := [DoubleQuote] + p + [Backslash, 'u' as int] + r + [DoubleQuote];
    assert lit[1..|lit| - 1] == p + [Backslash, 'u' as int] + r;
    ShortUnicode(p, r);
    DecodeDoubleQuoted(lit);
  }

  // ---------------------------------------------------------------------------
  // readKeys and readSingleKey
  // ---------------------------------------------------------------------------

  /** `readSingleKey` reports the first key `readKeys` collects whenever a dot or bracket token starts the text. */
  lemma ReadSingleKeyFirst(s: JsString)
    ensures ReadSingleKey(s) != Undefined ==> |ReadKeys(s)| > 0 && ReadKeys(s)[0] == ReadSingleKey(s)
    ensures LexAt(s, 0).Some? && !LexAt(s, 0).value.Space? ==> |ReadKeys(s)| > 0 && ReadKeys(s)[0] == ReadSingleKey(s)
  {
    KeyPatternIsMatcher();
    if LexAt(s, 0).Some? {
      ScanStep(KeyPattern, s, 0);
    }
  }

  // ---------------------------------------------------------------------------
  // j2ref: when it answers, and what
  // ---------------------------------------------------------------------------

  /**
   * With `matchStart`, `j2ref` answers exactly when optional whitespace and an
   * identifier start at `startIndex`; without it, exactly when an identifier
   * start character occurs at or after `startIndex`.
   */
  lemma J2refDefined(s: JsString, startIndex: nat)
    ensures J2ref(s, startIndex, true).Some? <==> startIndex <= |s| && IdentMatchAt(s, startIndex)
    ensures J2ref(s, startIndex, false).Some? <==> exists q :: startIndex <= q < |s| && IsIdentStart(s[q])
  {
    if q :| startIndex <= q < |s| && IsIdentStart(s[q]) {
      WsEndUnique(s, q, q);
      assert IdentMatchAt(s, q);
    }
    if J2ref(s, startIndex, false).Some? {
      var w := FindIdent(s, startIndex).value.1;
      assert startIndex <= w < |s| && IsIdentStart(s[w]);
    }
  }

  /**
   * What `j2ref` answers, in terms of `readKeys`: the identifier match that
   * the search finds, the identifier as the first key, then exactly the keys
   * `readKeys` collects from the text after the identifier; `matched` runs
   * from the match to the end of that key chain.
   */
  lemma J2refSuffix(s: JsString, startIndex: nat, matchStart: bool)
    requires J2ref(s, startIndex, matchStart).Some?
    ensures FindIdent(s, startIndex).Some?
    ensures var (p, w, e) := FindIdent(s, startIndex).value;
      && e <= |s|
      && J2ref(s, startIndex, matchStart)
         == Some(Reference([Str(s[w..e])] + ReadKeys(s[e..]), p, s[p..e + ChainLength(KeyPattern, s[e..])]))
  {
    KeyPatternGood();
    J2refSuffixWith(KeyPattern, s, startIndex, matchStart);
  }

  lemma J2refSuffixWith(m: Matcher, s: JsString, startIndex: nat, matchStart: bool)
    requires GoodMatcher(m) && J2refWith(m, s, startIndex, matchStart).Some?
    ensures FindIdent(s, startIndex).Some?
    ensures var (p, w, e) := FindIdent(s, startIndex).value;
      && e <= |s|
      && J2refWith(m, s, startIndex, matchStart)
         == Some(Reference([Str(s[w..e])] + ChainKeys(m, s[e..]), p, s[p..e + ChainLength(m, s[e..])]))
  {
    var (p, w, e) := FindIdent(s, startIndex).value;
    ScanSuffix(m, s, e);
  }

  /** The chain from `e` is the chain `m` matches at the start of the text after `e`. */
  lemma ScanSuffix(m: Matcher, s: JsString, e: nat)
    requires GoodMatcher(m) && e <= |s|
    ensures Scan(m, s, e) == (Scan(m, s[e..], 0).0, e + ChainLength(m, s[e..]))
  {
    assert Local(m, s, e, |s|);
    ScanWindow(m, s, e, |s|, e);
    assert s[e..|s|] == s[e..];
  }

  /** Scanning the matched text again, from its start, gives the same keys and the whole text. */
  lemma J2refRescan(s: JsString, startIndex: nat, matchStart: bool)
    requires J2ref(s, startIndex, matchStart).Some?
    ensures var ref := J2ref(s, startIndex, matchStart).value;
      J2ref(ref.matched, 0, true) == Some(Reference(ref.keys, 0, ref.matched))
  {
    KeyPatternGood();
    J2refRescanWith(KeyPattern, s, startIndex, matchStart);
  }

  lemma J2refRescanWith(m: Matcher, s: JsString, startIndex: nat, matchStart: bool)
    requires GoodMatcher(m) && J2refWith(m, s, startIndex, matchStart).Some?
    ensures var ref := J2refWith(m, s, startIndex, matchStart).value;
      J2refWith(m, ref.matched, 0, true) == Some(Reference(ref.keys, 0, ref.matched))
  {
    var (p, w, e) := FindIdent(s, startIndex).value;
    var end := Scan(m, s, e).1;
    var keys := [Str(s[w..e])] + KeysOf(Scan(m, s, e).0);
    assert J2refWith(m, s, startIndex, matchStart) == Some(Reference(keys, p, s[p..end]));
    RescanMatch(m, s, p, w, e);
    J2refWhole(m, s[p..end], w - p, e - p, s[w..e], Scan(m, s, e).0);
  }

  /**
   * The text from an identifier match to the end of its chain has the same
   * identifier match, at 0, followed by the same chain, to its end.
   */
  lemma RescanMatch(m: Matcher, s: JsString, p: nat, w: nat, e: nat)
    requires GoodMatcher(m) && p <= |s| && IdentMatchAt(s, p)
    requires w == WsEnd(s, p) && IdentEnd(s, w) == Some(e)
    ensures p <= w <= e <= Scan(m, s, e).1
    ensures var t := s[p..Scan(m, s, e).1];
      && FindIdent(t, 0) == Some((0, w - p, e - p))
      && t[w - p..e - p] == s[w..e]
      && Scan(m, t, e - p) == (Scan(m, s, e).0, |t|)
  {
    var end := Scan(m, s, e).1;
    FindIdentWindow(s, p, w, e, end);
    ScanFromWindow(m, s, p, e);
    WindowSlice(s, p, end, w, e);
  }

  /** The chain from `e` reads the same in the window from `p` to where it ends. */
  lemma ScanFromWindow(m: Matcher, s: JsString, p: nat, e: nat)
    requires GoodMatcher(m) && p <= e <= |s|
    ensures var end := Scan(m, s, e).1;
      Scan(m, s[p..end], e - p) == (Scan(m, s, e).0, |s[p..end]|)
  {
    var end := Scan(m, s, e).1;
    assert Local(m, s, p, end);
    ScanWindow(m, s, p, end, e);
  }

  /** The identifier match at `p` is found again, at 0, in any window from `p` that holds it. */
  lemma FindIdentWindow(s: JsString, p: nat, w: nat, e: nat, end: nat)
    requires p <= |s| && IdentMatchAt(s, p) && w == WsEnd(s, p) && IdentEnd(s, w) == Some(e) && e <= end <= |s|
    ensures FindIdent(s[p..end], 0) == Some((0, w - p, e - p))
  {
    var t := s[p..end];
    WsEndWindow(s, p, end, p);
    assert t[w - p] == s[w];
    IdentEndWindow(s, p, end, w);
  }

  // ---------------------------------------------------------------------------
  // Round trip: a path written out is read back
  // ---------------------------------------------------------------------------

  /** One step of a path as an author writes it after the identifier. */
  datatype Segment =
    | Name(name: JsString)     // `.name`
    | Index(n: nat)            // `[n]`
    | Prop(text: JsString)     // `["text"]`, JSON-escaped
    | SqProp(text: JsString)   // `['text']`, both quotes escaped

  predicate ValidPath(path: seq<Segment>) {
    forall k :: 0 <= k < |path| ==> path[k].Name? ==> IsIdentifier(path[k].name)
  }

  function RenderSegment(seg: Segment): (r: JsString)
    ensures |r| > 0 && (r[0] == Period || r[0] == OpenBracket)
  {
    match seg
    case Name(name) => [Period] + name
    case Index(n) => [OpenBracket] + Decimal(n) + [CloseBracket]
    case Prop(x) => [OpenBracket] + Quote(x) + [CloseBracket]
    case SqProp(x) => [OpenBracket] + SqQuote(x) + [CloseBracket]
  }

  function Render(path: seq<Segment>): (r: JsString)
    ensures |r| == 0 || r[0] == Period || r[0] == OpenBracket
  {
    if |path| == 0 then [] else RenderSegment(path[0]) + Render(path[1..])
  }

  /** The key a segment denotes. */
  function SegmentKey(seg: Segment): Key {
    match seg
    case Name(name) => Str(name)
    case Index(n) => Num(n)
    case Prop(x) => Str(x)
    case SqProp(x) => Str(x)
  }

  function PathKeys(path: seq<Segment>): (r: seq<Key>)
    ensures |r| == |path|
  {
    if |path| == 0 then [] else [SegmentKey(path[0])] + PathKeys(path[1..])
  }

  /** A bracket around a literal is one token, whatever follows it. */
  lemma BracketToken(lit: JsString, tail: JsString)
    requires IsLiteral(lit)
    ensures LexAt([OpenBracket] + lit + [CloseBracket] + tail, 0) == Some(Bracket(|lit| + 2, lit))
  {
    var s := [OpenBracket] + lit + [CloseBracket] + tail;
    var k := |lit| + 1;
    assert s[1..k] == lit;
    LiteralSlice(s, 1, k);
    assert s[k] == CloseBracket;
    BracketComplete(s, 0, k + 1, 1, k);
  }

  /** Text after a name that cannot continue it: empty, or not an identifier character. */
  predicate EndsName(tail: JsString) {
    |tail| == 0 || !IsIdentPart(tail[0])
  }

  /** A rendered segment is one token, adding the segment's key, whatever text that does not continue a name follows it. */
  lemma SegmentToken(seg: Segment, tail: JsString)
    requires SegmentFits(seg, tail)
    ensures var t := LexAt(RenderSegment(seg) + tail, 0);
      t.Some? && t.value.len == |RenderSegment(seg)| && WellFormed(t.value) && KeyOf(t.value) == [SegmentKey(seg)]
  {
    var r := RenderSegment(seg);
    var s := r + tail;
    match seg
    case Name(name) =>
      var e := 1 + |name|;
      assert s[1] == name[0];
      assert forall k :: 2 <= k < e ==> s[k] == name[k - 1];
      assert e < |s| ==> s[e] == tail[0];
      PartEndUnique(s, 2, e);
      assert s[1..e] == name;
    case Index(n) =>
      assert s == [OpenBracket] + Decimal(n) + [CloseBracket] + tail;
      DecodeDigits(Decimal(n), n);
      BracketToken(Decimal(n), tail);
    case Prop(x) =>
      assert s == [OpenBracket] + Quote(x) + [CloseBracket] + tail;
      DecodeQuote(x);
      BracketToken(Quote(x), tail);
    case SqProp(x) =>
      assert s == [OpenBracket] + SqQuote(x) + [CloseBracket] + tail;
      DecodeSqQuote(x);
      BracketToken(SqQuote(x), tail);
  }

  /** `readSingleKey` reads a rendered segment back as the key it denotes. */
  lemma ReadSingleKeySegment(seg: Segment, tail: JsString)
    requires SegmentFits(seg, tail)
    ensures ReadSingleKey(RenderSegment(seg) + tail) == SegmentKey(seg)
  {
    SegmentToken(seg, tail);
  }

  /** `readKeys` reads a bracket around any literal as the literal's decoded key, then goes on after it. */
  lemma ReadKeysBracket(lit: JsString, tail: JsString)
    requires IsLiteral(lit)
    ensures ChainLength(KeyPattern, [OpenBracket] + lit + [CloseBracket] + tail) == |lit| + 2 + ChainLength(KeyPattern, tail)
    ensures ReadKeys([OpenBracket] + lit + [CloseBracket] + tail) == [DecodeLiteral(lit)] + ReadKeys(tail)
  {
    var r := [OpenBracket] + lit + [CloseBracket];
    KeyPatternGood();
    BracketToken(lit, tail);
    ScanFirst(KeyPattern, r + tail);
    assert (r + tail)[|r|..] == tail;
  }

  /**
   * A bracket whose literal `JSON.parse` rejects (a raw control character, or
   * a double-quoted body that is not a JSON string body) still pushes one
   * entry, `undefined`, and the chain goes on after it.
   */
  lemma ReadKeysUndefined(lit: JsString, tail: JsString)
    requires IsQuoted(lit)
    requires Controls(lit[1..|lit| - 1]) != [] || (lit[0] == DoubleQuote && !IsJsonStringBody(lit[1..|lit| - 1]))
    ensures ReadKeys([OpenBracket] + lit + [CloseBracket] + tail) == [Undefined] + ReadKeys(tail)
  {
    if Controls(lit[1..|lit| - 1]) != [] {
      DecodeControlUndefined(lit);
    } else {
      DecodeDoubleQuoted(lit);
    }
    ReadKeysBracket(lit, tail);
  }

  /** `readSingleKey` reads a bracket around any literal as the literal's decoded key. */
  lemma ReadSingleKeyBracket(lit: JsString, tail: JsString)
    requires IsLiteral(lit)
    ensures ReadSingleKey([OpenBracket] + lit + [CloseBracket] + tail) == DecodeLiteral(lit)
  {
    BracketToken(lit, tail);
  }

  /** Where no token starts, the chain is empty: `readKeys` gives no key and matches nothing. */
  lemma ReadKeysNone(s: JsString)
    requires LexAt(s, 0).None?
    ensures ReadKeys(s) == [] && ChainLength(KeyPattern, s) == 0
  {
    KeyPatternIsMatcher();
  }

  /** A run of whitespace is one token that adds no key: `readKeys` steps over it. */
  lemma ReadKeysSpace(ws: JsString, tail: JsString)
    requires |ws| > 0 && AllWs(ws, 0, |ws|) && (|tail| == 0 || !IsWs(tail[0]))
    ensures ChainLength(KeyPattern, ws + tail) == |ws| + ChainLength(KeyPattern, tail)
    ensures ReadKeys(ws + tail) == ReadKeys(tail)
  {
    var s := ws + tail;
    KeyPatternGood();
    assert AllWs(s, 0, |ws|);
    WsEndUnique(s, 0, |ws|);
    assert LexAt(s, 0) == Some(Space(|ws|));
    ScanFirst(KeyPattern, s);
    assert s[|ws|..] == tail;
  }

  /**
   * An identifier followed by text that does not continue it: `j2ref`
   * gives the identifier as the first key, then the keys `readKeys` reads
   * from the text after it.
   */
  lemma J2refIdent(ident: JsString, tail: JsString)
    requires IsIdentifier(ident) && EndsName(tail)
    ensures J2ref(ident + tail, 0, true)
      == Some(Reference([Str(ident)] + ReadKeys(tail), 0, ident + tail[..ChainLength(KeyPattern, tail)]))
  {
    KeyPatternGood();
    J2refIdentChain(KeyPattern, ident + tail, ident, tail);
  }

  /** `j2ref` reads an identifier and a bracket around any literal as the identifier and the decoded key. */
  lemma J2refBracket(ident: JsString, lit: JsString, tail: JsString)
    requires IsIdentifier(ident) && IsLiteral(lit)
    ensures var r := [OpenBracket] + lit + [CloseBracket];
      J2ref(ident + r + tail, 0, true)
      == Some(Reference([Str(ident)] + [DecodeLiteral(lit)] + ReadKeys(tail), 0, ident + r + tail[..ChainLength(KeyPattern, tail)]))
  {
    KeyPatternGood();
    ReadKeysBracket(lit, tail);
    J2refIdentThen(KeyPattern, ident, [OpenBracket] + lit + [CloseBracket], tail, [DecodeLiteral(lit)]);
  }

  /** `seg` may be followed by `tail`: a name must be an identifier that `tail` does not continue. */
  predicate SegmentFits(seg: Segment, tail: JsString) {
    seg.Name? ==> IsIdentifier(seg.name) && EndsName(tail)
  }

  /** `t` is the token of a rendered segment: it covers the segment and adds its key. */
  predicate IsSegmentStep(t: Option<Step>, seg: Segment) {
    t.Some? && t.value.len == |RenderSegment(seg)| && t.value.keys == [SegmentKey(seg)]
  }

  /** `m` reads every rendered segment as one token, whatever fitting text follows. */
  ghost predicate LexesSegments(m: Matcher) {
    forall seg: Segment, tail: JsString :: SegmentFits(seg, tail) ==> IsSegmentStep(m(RenderSegment(seg) + tail, 0), seg)
  }

  lemma KeyPatternLexesSegments()
    ensures LexesSegments(KeyPattern)
  {
    forall seg: Segment, tail: JsString | SegmentFits(seg, tail)
      ensures IsSegmentStep(KeyPattern(RenderSegment(seg) + tail, 0), seg)
    {
      SegmentToken(seg, tail);
    }
  }

  /**
   * A rendered path is scanned whole, and `readKeys` gives back the keys of
   * its segments, followed by what it reads from the text after the path.
   */
  lemma ScanRender(path: seq<Segment>, tail: JsString)
    requires ValidPath(path) && EndsName(tail)
    ensures ChainLength(KeyPattern, Render(path) + tail) == |Render(path)| + ChainLength(KeyPattern, tail)
    ensures ReadKeys(Render(path) + tail) == PathKeys(path) + ReadKeys(tail)
  {
    KeyPatternGood();
    KeyPatternLexesSegments();
    ScanRenderWith(KeyPattern, path, tail);
  }

  lemma {:induction false} ScanRenderWith(m: Matcher, path: seq<Segment>, tail: JsString)
    requires GoodMatcher(m) && LexesSegments(m) && ValidPath(path) && EndsName(tail)
    ensures ChainLength(m, Render(path) + tail) == |Render(path)| + ChainLength(m, tail)
    ensures ChainKeys(m, Render(path) + tail) == PathKeys(path) + ChainKeys(m, tail)
    decreases |path|
  {
    if |path| == 0 {
      assert Render(path) + tail == tail;
    } else {
      var r := RenderSegment(path[0]);
      var rest := Render(path[1..]);
      var s := r + (rest + tail);
      ConcatAssoc(r, rest, tail);
      assert SegmentFits(path[0], rest + tail);
      ScanFirst(m, s);
      assert s[|r|..] == rest + tail;
      ScanRenderWith(m, path[1..], tail);
      ConcatAssoc([SegmentKey(path[0])], PathKeys(path[1..]), ChainKeys(m, tail));
    }
  }

  /**
   * `j2ref` reads an identifier followed by a rendered path back as the
   * identifier and the path's keys, then whatever key chain follows the path;
   * the match runs to the end of that chain.
   */
  lemma J2refRender(ident: JsString, path: seq<Segment>, tail: JsString)
    requires IsIdentifier(ident) && ValidPath(path) && EndsName(tail)
    ensures J2ref(ident + Render(path) + tail, 0, true)
      == Some(Reference([Str(ident)] + PathKeys(path) + ReadKeys(tail), 0, ident + Render(path) + tail[..ChainLength(KeyPattern, tail)]))
  {
    KeyPatternGood();
    KeyPatternLexesSegments();
    J2refRenderWith(KeyPattern, ident, path, tail);
  }

  lemma J2refRenderWith(m: Matcher, ident: JsString, path: seq<Segment>, tail: JsString)
    requires GoodMatcher(m) && LexesSegments(m) && IsIdentifier(ident) && ValidPath(path) && EndsName(tail)
    ensures J2refWith(m, ident + Render(path) + tail, 0, true)
      == Some(Reference([Str(ident)] + PathKeys(path) + ChainKeys(m, tail), 0, ident + Render(path) + tail[..ChainLength(m, tail)]))
  {
    ScanRenderWith(m, path, tail);
    J2refIdentThen(m, ident, Render(path), tail, PathKeys(path));
  }

  /**
   * An identifier, then a text `r` the chain reads whole as the keys `keys`,
   * then `tail`: `j2ref` continues the chain into `tail`.
   */
  lemma J2refIdentThen(m: Matcher, ident: JsString, r: JsString, tail: JsString, keys: seq<Key>)
    requires GoodMatcher(m) && IsIdentifier(ident) && EndsName(r + tail)
    requires ChainLength(m, r + tail) == |r| + ChainLength(m, tail)
    requires ChainKeys(m, r + tail) == keys + ChainKeys(m, tail)
    ensures J2refWith(m, ident + r + tail, 0, true)
      == Some(Reference([Str(ident)] + keys + ChainKeys(m, tail), 0, ident + r + tail[..ChainLength(m, tail)]))
  {
    JoinPrefix(ident, r, tail, ChainLength(m, tail));
    J2refIdentChain(m, ident + r + tail, ident, r + tail);
    ConcatAssoc([Str(ident)], keys, ChainKeys(m, tail));
  }

  /** Regrouping `ident + (r + tail)` and its prefix that ends `n` units into `tail`. */
  lemma JoinPrefix(ident: JsString, r: JsString, tail: JsString, n: nat)
    requires n <= |tail|
    ensures ident + (r + tail) == ident + r + tail
    ensures ident + (r + tail)[..|r| + n] == ident + r + tail[..n]
  {
    ConcatAssoc(ident, r, tail);
    assert (r + tail)[..|r| + n] == r + tail[..n];
    ConcatAssoc(ident, r, tail[..n]);
  }

  /**
   * An identifier followed by text that does not continue it: `j2ref`
   * matches the identifier and the key chain after it.
   */
  lemma J2refIdentChain(m: Matcher, s: JsString, ident: JsString, tail: JsString)
    requires GoodMatcher(m) && IsIdentifier(ident) && EndsName(tail) && s == ident + tail
    ensures J2refWith(m, s, 0, true)
      == Some(Reference([Str(ident)] + ChainKeys(m, tail), 0, ident + tail[..ChainLength(m, tail)]))
  {
    var e := |ident|;
    IdentThenPath(ident, tail);
    ScanSuffix(m, s, e);
    assert s[e..] == tail;
    assert s[0..e + ChainLength(m, tail)] == ident + tail[..ChainLength(m, tail)];
  }

  /** An identifier followed by text that does not continue it is the identifier match at 0. */
  lemma IdentThenPath(ident: JsString, tail: JsString)
    requires IsIdentifier(ident) && EndsName(tail)
    ensures FindIdent(ident + tail, 0) == Some((0, 0, |ident|)) && (ident + tail)[0..|ident|] == ident
  {
    var s := ident + tail;
    var e := |ident|;
    assert s[0] == ident[0];
    WsEndUnique(s, 0, 0);
    assert forall k :: 1 <= k < e ==> s[k] == ident[k];
    assert e < |s| ==> s[e] == tail[0];
    PartEndUnique(s, 1, e);
    assert s[0..e] == ident;
  }

  /**
   * When the identifier match is at 0 and its chain runs to the end of the
   * text, `j2ref` with `matchStart` matches the whole text.
   */
  lemma J2refWhole(m: Matcher, s: JsString, w: nat, e: nat, ident: JsString, toks: seq<Step>)
    requires GoodMatcher(m) && FindIdent(s, 0) == Some((0, w, e)) && w <= e <= |s|
    requires s[w..e] == ident && Scan(m, s, e) == (toks, |s|)
    ensures J2refWith(m, s, 0, true) == Some(Reference([Str(ident)] + KeysOf(toks), 0, s))
  {
    assert s[0..|s|] == s;
  }

  // ---------------------------------------------------------------------------
  // The loops as written
  // ---------------------------------------------------------------------------

  /**
   * `exec` of a global pattern whose `lastIndex` is `from`: the leftmost
   * position at or after `from` where the pattern matches, with the match
   * there, or `null` when it matches nowhere further on.
   */
  method Exec(m: Matcher, s: JsString, from: nat) returns (r: Option<(nat, Step)>)
    requires from <= |s|
    ensures r.Some? ==> from <= r.value.0 <= |s| && m(s, r.value.0) == Some(r.value.1)
    ensures r.Some? ==> forall k :: from <= k < r.value.0 ==> m(s, k).None?
    ensures r.None? ==> forall k :: from <= k <= |s| ==> m(s, k).None?
  {
    var p := from;
    while p <= |s| && m(s, p).None?
      invariant from <= p <= |s| + 1
      invariant forall k :: from <= k < p ==> m(s, k).None?
      decreases |s| + 1 - p
    {
      p := p + 1;
    }
    if p > |s| {
      return None;
    }
    return Some((p, m(s, p).value));
  }

  /**
   * The `while (match = re.exec(str))` loop from the cursor `i`: it stops
   * when `exec` finds nothing or finds a match that does not start at the
   * cursor, pushes the keys of each match, and moves the cursor past it.
   */
  method ScanLoop(m: Matcher, s: JsString, i: nat) returns (keys: seq<Key>, nextIndex: nat)
    requires IsMatcher(m) && i <= |s|
    ensures keys == KeysOf(Scan(m, s, i).0) && nextIndex == Scan(m, s, i).1
  {
    nextIndex := i;
    keys := [];
    while true
      invariant i <= nextIndex <= |s|
      invariant Scan(m, s, nextIndex).1 == Scan(m, s, i).1
      invariant keys + KeysOf(Scan(m, s, nextIndex).0) == KeysOf(Scan(m, s, i).0)
      decreases |s| - nextIndex
    {
      var found := Exec(m, s, nextIndex);
      if found.None? || found.value.0 != nextIndex {
        break;
      }
      var step := found.value.1;
      ScanStep(m, s, nextIndex);
      ConcatAssoc(keys, step.keys, KeysOf(Scan(m, s, nextIndex + step.len).0));
      keys := keys + step.keys;
      nextIndex := nextIndex + step.len;
    }
  }

  /** `readKeys` as written: the key loop from position 0. */
  method ReadKeysLoop(s: JsString) returns (keys: seq<Key>)
    ensures keys == ReadKeys(s)
  {
    KeyPatternIsMatcher();
    var end;
    keys, end := ScanLoop(KeyPattern, s, 0);
  }

  /**
   * The identifier search as written: `exec` of the global identifier pattern
   * from `lastIndex` moves forward one position at a time until the pattern
   * matches.
   */
  method FindIdentLoop(s: JsString, from: nat) returns (r: Option<(nat, nat, nat)>)
    requires from <= |s|
    ensures r == FindIdent(s, from)
  {
    var p := from;
    while !IdentMatchAt(s, p) && p < |s|
      invariant from <= p <= |s|
      invariant FindIdent(s, p) == FindIdent(s, from)
      decreases |s| - p
    {
      p := p + 1;
    }
    if !IdentMatchAt(s, p) {
      return None;
    }
    var w := WsEnd(s, p);
    r := Some((p, w, IdentEnd(s, w).value));
  }

  /**
   * `j2ref` as written: the identifier search, the `matchStart` check, then
   * the key loop from the end of the identifier.
   */
  method J2refLoop(s: JsString, startIndex: nat, matchStart: bool) returns (r: Option<Reference>)
    ensures r == J2ref(s, startIndex, matchStart)
  {
    if startIndex > |s| {
      return None;
    }
    var found := FindIdentLoop(s, startIndex);
    if found.None? {
      return None;
    }
    var (p, w, e) := found.value;
    if matchStart && p != startIndex {
      return None;
    }
    KeyPatternIsMatcher();
    var keys, nextIndex := ScanLoop(KeyPattern, s, e);
    r := Some(Reference([Str(s[w..e])] + keys, p, s[p..nextIndex]));
  }
}
