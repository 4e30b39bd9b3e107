/**
 * JavaScript text as the scanner sees it.
 *
 * A JavaScript string is a sequence of UTF-16 code units, and both the
 * regular expressions of the scanner (which carry no `u` flag) and
 * `JSON.parse` work code unit by code unit. The model therefore works on
 * `seq<CodeUnit>` rather than on Dafny's `string`, which cannot hold a lone
 * surrogate. `Js` turns a Dafny string of BMP characters into the code units
 * JavaScript would store for it.
 */
module Text {

  /** One UTF-16 code unit. */
  type CodeUnit = u: int | 0 <= u < 0x1_0000

  /** A JavaScript string value. */
  type JsString = seq<CodeUnit>

  datatype Option<+T> = None | Some(value: T)

  /**
   * The code units of a Dafny string whose characters all lie in the BMP; a
   * character beyond it, which the model's texts never use, becomes U+FFFD.
   */
  function Js(s: string): (r: JsString)
    ensures |r| == |s|
    ensures forall k :: 0 <= k < |s| && s[k] as int < 0x1_0000 ==> r[k] == s[k] as int
  {
    seq(|s|, k requires 0 <= k < |s| => if s[k] as int < 0x1_0000 then s[k] as int else 0xFFFD)
  }

  const Backslash: CodeUnit := '\\' as int
  const DoubleQuote: CodeUnit := '"' as int
  const SingleQuote: CodeUnit := '\'' as int
  const Period: CodeUnit := '.' as int
  const OpenBracket: CodeUnit := '[' as int
  const CloseBracket: CodeUnit := ']' as int

  /** The class `\s` of JavaScript regular expressions: WhiteSpace and LineTerminator. */
  predicate IsWs(c: CodeUnit) {
    || 0x09 <= c <= 0x0D
    || c == 0x20 || c == 0xA0 || c == 0x1680
    || 0x2000 <= c <= 0x200A
    || c == 0x2028 || c == 0x2029 || c == 0x202F || c == 0x205F
    || c == 0x3000 || c == 0xFEFF
  }

  /** The code units that a regular-expression `.` does not match. */
  predicate IsLineTerminator(c: CodeUnit) {
    c == 0x0A || c == 0x0D || c == 0x2028 || c == 0x2029
  }

  /** The class `\d`: ASCII decimal digits only. */
  predicate IsDigit(c: CodeUnit) {
    '0' as int <= c <= '9' as int
  }

  /** `[$_A-Za-z]` */
  predicate IsIdentStart(c: CodeUnit) {
    c == '$' as int || c == '_' as int || 'A' as int <= c <= 'Z' as int || 'a' as int <= c <= 'z' as int
  }

  /** `[$_A-Za-z0-9]` */
  predicate IsIdentPart(c: CodeUnit) {
    IsIdentStart(c) || IsDigit(c)
  }

  /** A word of the identifier grammar `[$_A-Za-z][$_A-Za-z0-9]*`. */
  predicate IsIdentifier(w: JsString) {
    && |w| > 0
    && IsIdentStart(w[0])
    && forall k :: 1 <= k < |w| ==> IsIdentPart(w[k])
  }

  /** Whitespace allowed around a JSON value (section 2 of RFC 8259). */
  predicate IsJsonWs(c: CodeUnit) {
    c == 0x20 || c == 0x09 || c == 0x0A || c == 0x0D
  }

  predicate IsHexDigit(c: CodeUnit) {
    IsDigit(c) || 'a' as int <= c <= 'f' as int || 'A' as int <= c <= 'F' as int
  }

  function DigitValue(c: CodeUnit): (v: nat)
    requires IsDigit(c)
    ensures v < 10
  {
    c - '0' as int
  }

  function HexValue(c: CodeUnit): (v: nat)
    requires IsHexDigit(c)
    ensures v < 16
  {
    if IsDigit(c) then c - '0' as int
    else if 'a' as int <= c <= 'f' as int then c - 'a' as int + 10
    else c - 'A' as int + 10
  }

  /** Every code unit of `s[i..j]` is whitespace. */
  predicate AllWs(s: JsString, i: nat, j: nat)
    requires i <= j <= |s|
  {
    forall k :: i <= k < j ==> IsWs(s[k])
  }

  /** Every code unit of `s[i..j]` is a decimal digit. */
  predicate AllDigits(s: JsString, i: nat, j: nat)
    requires i <= j <= |s|
  {
    forall k :: i <= k < j ==> IsDigit(s[k])
  }

  /** A slice of a slice is a slice of the original. */
  lemma SliceOfSlice<T>(s: seq<T>, i: int, j: int, a: int, b: int)
    requires 0 <= i <= j <= |s| && 0 <= a <= b <= j - i
    ensures s[i..j][a..b] == s[i + a..i + b]
  {
    var w := s[i..j];
    forall k | 0 <= k < b - a ensures w[a..b][k] == s[i + a..i + b][k] {
      assert w[a..b][k] == w[a + k];
    }
  }

  /** The slice `s[a..b]` read inside the window `s[i..j]` that holds it. */
  lemma WindowSlice<T>(s: seq<T>, i: int, j: int, a: int, b: int)
    requires 0 <= i <= a <= b <= j <= |s|
    ensures s[i..j][a - i..b - i] == s[a..b]
  {
    SliceOfSlice(s, i, j, a - i, b - i);
  }

  lemma ConcatAssoc<T>(x: seq<T>, y: seq<T>, z: seq<T>)
    ensures x + (y + z) == (x + y) + z
  {
  }

  /** `w` occurs in `s` starting at index `i`. */
  predicate OccursAt(s: JsString, i: nat, w: JsString) {
    i + |w| <= |s| && forall k :: 0 <= k < |w| ==> s[i + k] == w[k]
  }

  /** An occurrence of `v + w` is an occurrence of `v` followed by one of `w`. */
  lemma OccursSplit(s: JsString, i: nat, v: JsString, w: JsString)
    requires OccursAt(s, i, v + w)
    ensures OccursAt(s, i, v) && OccursAt(s, i + |v|, w)
  {
    forall k | 0 <= k < |v| ensures s[i + k] == v[k] {
      assert (v + w)[k] == v[k];
    }
    forall k | 0 <= k < |w| ensures s[i + |v| + k] == w[k] {
      assert s[i + (|v| + k)] == (v + w)[|v| + k];
    }
  }

  /** The second part of a concatenation occurs right after the first. */
  lemma OccursAfter(v: JsString, w: JsString)
    ensures OccursAt(v + w, |v|, w)
  {
    forall k | 0 <= k < |w| ensures (v + w)[|v| + k] == w[k] {
    }
  }
}
