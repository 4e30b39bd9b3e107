# j2ref scanner, modelled in Dafny

`j2ref(str, startIndex = 0, matchStart = true)` reads a JavaScript
reference such as `$.w.x[3].y` or `foo['a b']` from a string. First it finds an
identifier with `\s*([$_A-Za-z][$_A-Za-z0-9]*)`. Then it applies a global key
pattern from the end of that identifier. A bracket holding a quoted string or a
digit run becomes a key, and so does a dot followed by an identifier.
Whitespace is skipped. A single-quoted string is first rewritten into a
double-quoted one, then decoded with `JSON.parse`; a throw gives `undefined`.
The loop stops at the first match that does not start where the previous one
ended. The function returns the keys, the index of the identifier match, and
the text matched.

The notebook that develops `j2ref` also defines some smaller pieces, each
with a table of examples:
- `quotedStrRe`, a quoted-string pattern;
- `escDblQuotes`, which escapes double quotes;
- `getString`, which extracts the first quoted string as JSON text;
- `identRe`, the identifier pattern;
- `readSingleKey`, which reads one key token at position 0;
- `readKeys`, the key loop without the identifier.

All of these are modelled, and so is each example table.

The model works on UTF-16 code units (`Text.JsString`), as JavaScript
strings and these regular expressions (no `u` flag) do. Each regular
expression is an anchored, greedy function from a cursor to the end of its
match:
- `Lexer` models the pieces: whitespace, identifiers, quoted bodies and
  digit runs.
- `KeyToken.LexAt` models one key token.
- `Scanner.FindIdent` models the identifier search.

Every piece of these patterns can match in at most one way at a given
position, so backtracking never changes a result. The `exec` loop over a
global pattern starts at `lastIndex` and breaks when the match is not at the
cursor. That is the same as applying the anchored matcher until it fails,
which is what `Scanner.Scan` does. `Scanner.ScanLoop` is the loop as written,
with `exec`'s forward search (`Scanner.Exec`) and the break.
`JSON.parse` (`Json.Parse`) is modelled for the two inputs the scanner gives
it: a text that starts with `"`, and a digit run.

Properties proved:
- **Lexer:** the matchers are sound and complete against predicates that
  state the languages the patterns accept. A match depends only on the code
  units it covers.
- **JSON:** `JSON.parse` inverts JSON quoting and decimal numerals. A text that
  starts with `"` parses exactly when it is a JSON string text under the grammar
  of section 7 of RFC 8259. So a bracket literal with a raw control character,
  an unknown escape or a short `\u` escape gives an `undefined` key.
- **escDblQuotes and the single-quote rewrite:** the escaping is idempotent,
  and the rewrite turns a single-quoted literal into the JSON string for the
  same text.
- **Round trip:** an identifier followed by any path of `.name`, `[n]`,
  `["…"]` and `['…']` segments is read back as exactly its keys.
- **j2ref:** it is characterised in terms of `readKeys`, and rescanning the
  matched text gives the same keys.
- **Example tables:** every row of every table gives the value the notebook
  expects.

Modules, one per file:
- `Text` (text.dfy)
- `Lexer` (lexer.dfy)
- `KeyToken` (keytoken.dfy)
- `Json` (json.dfy)
- `Quoting` (quoting.dfy)
- `Scanner` (scanner.dfy)
- `Examples` (examples.dfy)

## Model

| member | source | states |
|---|---|---|
| Lexer.WsEnd | index.js:2 | `\s*` from a cursor ends after a run of whitespace that the next code unit does not continue |
| Lexer.IdentEnd | notebook.mjs:235 | an identifier starts at the cursor exactly when its first code unit is `[$_A-Za-z]`; the match is an identifier that the next code unit cannot continue |
| Lexer.BodyEnd | index.js:14 | the closing quote found for a quoted body is the quote, and everything before it is a valid escaped body |
| Lexer.BodyEndComplete | index.js:14 | any position where a valid body is followed by the quote is the one found, so a quoted literal can end in only one place |
| Lexer.LiteralEnd | index.js:14 | the bracket contents found are a quoted literal or a digit run, and a digit run is taken whole |
| Lexer.LiteralEndComplete | index.js:14 | every literal that a following `\s*\]` could continue is the one found |
| KeyToken.LexAt | index.js:14 | a key token at a cursor is a bracket, a dot or whitespace, as its first code unit says; a bracket captures a literal and a dot captures an identifier; the match lies inside the text |
| KeyToken.LexSound | index.js:14 | the text a token covers is a word of the key pattern with the same captures, and whitespace and dot runs are maximal |
| KeyToken.LexComplete | index.js:14 | when any word of the key pattern starts at the cursor, a token is found there, so `None` means the pattern has no match at the cursor |
| KeyToken.LexAtWindow | index.js:14-16 | a token is the same in any window of the text that contains it, so the pattern's match depends only on the code units it covers |
| Json.Parse | index.js:29-33 | a `"`-led text parses to a string or throws; a digit run parses to a number exactly when it has no leading zero |
| Json.DecodeString | index.js:30 | a string the decoder reads ends at a closing `"` inside the text and decodes to fewer code units than it spans; its partners `DecodeSound` and `DecodeComplete` tie it to the JSON string grammar |
| Json.DecodeSound | index.js:29-33 | what the string decoder reads is a body of the JSON string grammar followed by the closing quote |
| Json.DecodeComplete | index.js:29-33 | a body of the JSON string grammar followed by a quote is read by the decoder up to that quote |
| Json.ParseString | index.js:29-33 | `JSON.parse` of a `"`-led text succeeds exactly when the text is a quote, a grammatical body, a quote and then only JSON whitespace; otherwise it throws |
| Json.ParseQuoted | index.js:29-33 | a text that opens and closes with `"` parses exactly when what lies between is a grammatical JSON string body |
| Json.JsonBodyAppend | index.js:29-33 | after a grammatical body, a longer text is grammatical exactly when the rest is |
| Json.JsonBodyNoControls | index.js:29-33 | a grammatical JSON string body holds no raw code unit below 0x20 |
| Json.BadEscape | index.js:29-33 | a backslash followed by anything but `" \ / b f n r t u`, after a grammatical prefix, makes the body ungrammatical |
| Json.ShortUnicode | index.js:29-33 | `\u` not followed by four hex digits, after a grammatical prefix, makes the body ungrammatical |
| Json.ParseQuote | index.js:30 | `JSON.parse` of the JSON string written for any text gives that text back |
| Json.ParseDecimal | index.js:30 | `JSON.parse` of a digit run gives `n` exactly when the run is the decimal numeral of `n` |
| Json.DecimalSound | index.js:30 | the numeral written for `n` has no leading zero and has the value `n` |
| Quoting.EscDblQuotes | notebook.mjs:157 | escaping double quotes never shortens the text, and the result never opens with a bare `"`, since a leading quote gains a backslash; its partners below state the full effect |
| Quoting.EscDblQuotesEscapes | notebook.mjs:157 | after `s.replace(/\\?"/g, '\\"')`, every double quote directly follows a backslash |
| Quoting.EscDblQuotesFixes | notebook.mjs:157 | a text whose double quotes are already escaped is left unchanged |
| Quoting.EscDblQuotesIdempotent | notebook.mjs:157 | the escaping is idempotent, and it leaves a text unchanged exactly when all of that text's double quotes are escaped |
| Quoting.EscDblQuotesKeepsText | notebook.mjs:157 | the escaping changes nothing except the backslashes in front of double quotes |
| Quoting.EscDblQuotesRaw | notebook.mjs:157 | on text with no single quote, backslash or control character, the escaping produces the JSON string body |
| Quoting.UnescSingle | index.js:27 | unescaping single quotes never lengthens the text; its partner `UnescSingleInverse` shows it undoes the escaping |
| Quoting.UnescSingleInverse | index.js:27 | `.replace(/\\'/g, "'")` undoes the escaping of single quotes |
| Quoting.RewriteSingle | index.js:26-28 | the rewrite of a quoted literal (always at least its two quotes) opens and closes with `"`; its partner `RewriteSqQuote` shows it gives the JSON string for the literal's text |
| Quoting.RewriteSqQuote | index.js:26-28 | the rewrite turns the single-quoted literal for any text into the JSON string for that text, which parses back to the text |
| Quoting.RewriteRawDoubleQuotes | index.js:26-28 | a single-quoted literal holding raw double quotes and no backslash is rewritten into the JSON string for its text |
| Quoting.RewriteBackslashQuote | index.js:27 | the literal `'a\\"b'` is rewritten so that its double quote stays unescaped, and `JSON.parse` throws on the result |
| Quoting.EscDblQuotesControls | notebook.mjs:157 | escaping double quotes keeps the control characters of the text, in order |
| Quoting.UnescSingleControls | index.js:27 | unescaping single quotes keeps the control characters of the text, in order |
| Quoting.FindQuoted | notebook.mjs:174 | the match found is the leftmost quoted literal at or after the cursor; when none is found, no quoted literal starts anywhere after the cursor |
| Quoting.QuotedStrMatch | notebook.mjs:88 | a body the pattern reports is the inside of the leftmost quoted literal in the text; `undefined` means the text holds no quoted literal, or the leftmost one is `''` |
| Quoting.QuotedStrMatchAfter | notebook.mjs:88 | the capture the source reads (group 1, else group 2) is the body of the first quoted literal, and an empty single-quoted body reads as `undefined` |
| Quoting.NoQuotedLiteral | notebook.mjs:173-180 | text with no quote gives `null` from both `quotedStrRe` and `getString` |
| Quoting.GetString | notebook.mjs:173-180 | `getString` returns `null` or a text that opens and closes with a double quote |
| Quoting.GetStringAfter | notebook.mjs:173-180 | `getString` returns the first quoted literal; a single-quoted literal is first rewritten into double quotes |
| Quoting.GetStringSingle | notebook.mjs:173-180 | for the single-quoted literal of any text, `getString` gives the JSON string that parses back to the text |
| Quoting.GetStringDouble | notebook.mjs:173-180 | for the JSON string of any text, `getString` gives that JSON string unchanged, and it parses back to the text |
| Quoting.GetStringRawDoubleQuotes | notebook.mjs:173-180 | a single-quoted literal with raw double quotes gives the JSON string for its text |
| Scanner.DecodeLiteral | index.js:25-34 | a quoted literal never decodes to a number; a digit run decodes to a number exactly when it has no leading zero, and otherwise to `undefined` |
| Scanner.KeyOf | index.js:35-37 | the push condition pushes one key for a bracket or a dot (the name, for a dot) and none for whitespace |
| Scanner.KeyPattern | index.js:14 | the key pattern matches at a cursor exactly when a key token starts there, and a match is non-empty and lies inside the text |
| Scanner.Scan | index.js:19-40 | the loop ends at a cursor where no token starts, within the text, having taken at most one step per code unit |
| Scanner.ScanIsChain | index.js:19-22 | the loop's matches lie end to end, each starting at the cursor the previous one left |
| Scanner.ChainIsScan | index.js:19-22 | any chain of matches laid end to end that cannot be extended is the one the loop follows |
| Scanner.Exec | index.js:19 | `exec` with `lastIndex` at a cursor finds the leftmost match at or after it, with no match in between; `null` means no match at or after it |
| Scanner.ScanLoop | index.js:19-40 | the `while (match = re.exec(str))` loop, with the forward search and the break when a match does not start at the cursor, collects the same keys and stops at the same cursor as the chain |
| Scanner.ReadKeys | notebook.mjs:354-382 | `readKeys` pushes at most one key per code unit of the chain it matches, and nothing when no token starts at 0 |
| Scanner.ReadKeysLoop | notebook.mjs:354-382 | `readKeys` as written returns the keys of the chain from position 0 |
| Scanner.ReadKeysBracket | notebook.mjs:364-379 | a bracket around any literal is read as the literal's decoded key, and the chain goes on after it |
| Scanner.ReadKeysUndefined | notebook.mjs:364-379 | a bracket whose literal `JSON.parse` rejects (a raw control character, or a double-quoted body outside the JSON string grammar) still pushes `undefined`, and the chain goes on after it |
| Scanner.ReadKeysNone | notebook.mjs:359-362 | where no token starts at 0, `readKeys` gives no key and matches nothing |
| Scanner.ReadKeysSpace | notebook.mjs:375-379 | a whitespace run adds no key, and the chain goes on after it |
| Scanner.ScanRender | notebook.mjs:354-382 | a written path followed by text that does not continue a name is read whole: `readKeys` gives the path's keys, then what follows |
| Scanner.ReadSingleKey | notebook.mjs:291-307 | only a text that starts with `[` or `.` gives a key, and a text that starts with `.` gives a name exactly when a dot token matches |
| Scanner.ReadSingleKeyBracket | notebook.mjs:294-305 | a bracket around any literal is read as the literal's decoded key |
| Scanner.ReadSingleKeySegment | notebook.mjs:291-307 | every written path segment is read back as the key it denotes |
| Scanner.ReadSingleKeyFirst | notebook.mjs:291-307 | whenever a bracket or dot token starts the text, `readSingleKey` gives the first key `readKeys` collects |
| Scanner.DecodeQuote | index.js:29-33 | the JSON string for any text, in brackets, decodes to that text |
| Scanner.DecodeSqQuote | index.js:26-33 | the single-quoted literal for any text, in brackets, decodes to that text |
| Scanner.DecodeRawDoubleQuotes | index.js:26-33 | a single-quoted literal with raw double quotes and no backslash decodes to its text |
| Scanner.DecodeDoubleQuoted | index.js:29-33 | a double-quoted literal decodes to a string exactly when its body is a grammatical JSON string body, and to `undefined` otherwise |
| Scanner.DecodeSingleQuoted | index.js:26-33 | a single-quoted literal decodes to a string exactly when its rewritten body is a grammatical JSON string body, and to `undefined` otherwise |
| Scanner.DecodeControlUndefined | index.js:26-33 | a quoted literal holding a raw control character, such as a raw line feed, decodes to `undefined` |
| Scanner.DecodeBadEscape | index.js:29-33 | a double-quoted literal whose first bad escape is a backslash before a unit other than `" \ / b f n r t u` decodes to `undefined` |
| Scanner.DecodeShortUnicode | index.js:29-33 | a double-quoted literal in which `\u` is not followed by four hex digits decodes to `undefined` |
| Scanner.DecodeDigits | index.js:29-33 | a digit run decodes to `n` exactly when it is the numeral of `n`, and to `undefined` exactly when it has a leading zero |
| Scanner.IdentAtStart | notebook.mjs:252-253 | the identifier table's expression gives an identifier exactly when the text starts with `[$_A-Za-z]`, and the identifier is a prefix that the next code unit does not continue; it throws a `TypeError` exactly when no code unit is `[$_A-Za-z]`, and gives `undefined` otherwise |
| Scanner.FindIdent | index.js:2-6 | the identifier match found is the leftmost one at or after `startIndex`; when none is found, there is no match anywhere after `startIndex` |
| Scanner.FindIdentLoop | index.js:2-6 | the cursor search that steps `lastIndex` forward one code unit at a time finds the same leftmost identifier match as `Scanner.FindIdent` |
| Scanner.J2ref | index.js:1-46 | `j2ref` with the key pattern: the result lies at or after `startIndex` (exactly at it with `matchStart`); `matched` is the text from `index` and ends where no key token starts; the first key is the identifier |
| Scanner.J2refWith | index.js:1-46 | the result lies at or after `startIndex` (exactly at it with `matchStart`); `matched` is the text from `index`, and no token starts after it; the first key is the identifier |
| Scanner.J2refDefined | index.js:2-12 | with `matchStart`, `j2ref` answers exactly when whitespace and an identifier start at `startIndex`; without it, exactly when `[$_A-Za-z]` occurs at or after `startIndex` |
| Scanner.J2refSuffix | index.js:14-45 | the keys are the identifier followed by exactly what `readKeys` reads after it, and `matched` runs to the end of that chain |
| Scanner.J2refRescan | index.js:41-45 | `j2ref` of its own `matched` text, from 0, gives the same keys and all of that text |
| Scanner.J2refIdent | index.js:6-17 | an identifier followed by text that does not continue it gives the identifier, then what `readKeys` reads from that text |
| Scanner.J2refBracket | index.js:24-37 | an identifier and a bracket around any literal give the identifier and the literal's decoded key, then what follows |
| Scanner.J2refRender | index.js:1-46 | an identifier followed by any written path gives back the identifier and the path's keys; the match covers the path |
| Scanner.J2refLoop | index.js:1-46 | `j2ref` as written returns what the functional model describes: the `exec` identifier search, the `matchStart` check, then the `exec` key loop with its break |
| Examples.QuotedStrReTable | notebook.mjs:96-105 | every row of the `quotedStrRe` table gives the expected capture, group 1 else group 2 |
| Examples.EscDblQuotesTable | notebook.mjs:141-152 | both escaping examples give the expected JSON body, and it parses back to the text in quotes |
| Examples.GetStringTable | notebook.mjs:188-199 | every row of the `getString` table gives the expected JSON text, and `JSON.parse` of it gives the expected value |
| Examples.IdentThrows | notebook.mjs:252 | on `123`, which the table does not list, `identRe` matches nowhere and the table's expression throws |
| Examples.IdentTable | notebook.mjs:242-255 | every row of the `identRe` table gives the expected identifier or `undefined` |
| Examples.ReadSingleKeyTable | notebook.mjs:315-329 | every row of the `readSingleKey` table gives the expected key |
| Examples.ReadKeysTable | notebook.mjs:390-404 | every row of the `readKeys` table gives the expected keys |
| Examples.J2refTable | notebook.mjs:501-515 | every row of the `j2ref` table gives the expected keys, or `undefined`, and the index and matched text as well |

## Left out

- Json.Parse: digit runs parse to exact naturals. A JavaScript number rounds above 2^53, so a longer run in the source gives a rounded value.
- Json.Parse: only the two shapes the scanner hands it are modelled: a text that starts with `"`, and a digit run. Objects, arrays, literals, signs, fractions and exponents are not.
- Scanner.J2refWith: `startIndex` is a natural number. Negative, fractional and non-numeric arguments, and the way `lastIndex` would coerce them, are not modelled.
- Scanner.J2ref: `startIndex` is a natural number, as for `Scanner.J2refWith`.
- `undefined` and `null` results become `None`: `j2ref`'s result is `Option<Reference>`, and the `null` of `quotedStrRe` and `getString` is `None` of an `Option`. The keys are `Str`, `Num` and `Undefined`.
- `lastIndex`: the mutable state of the regular expressions is not modelled. Each search is a function of an explicit cursor; between calls, the source creates fresh pattern objects (`readKeys`, `j2ref`) or uses the non-global `singleKeyRe`.
- The regular-expression engine: the patterns are modelled as greedy matchers. This is exact only because each piece has a unique match, a fact the lexer lemmas prove.
- The example tables compare with loose `==` (and `!==` per key). The model states exact equality, which implies their comparisons.
- The `j2ref` table in the source compares keys only. The model also states `index` and `matched`.
- Scanner.DecodeBadEscape: stated for double-quoted literals only, as is `Scanner.DecodeShortUnicode`. A single-quoted literal's escapes are judged after the rewrite, which `Scanner.DecodeSingleQuoted` states.
- `Text.Js`: turns a Dafny literal into code units only for BMP characters; any other character becomes U+FFFD, and no literal of the model uses one. Text outside the BMP (surrogate pairs) is still covered by `JsString` in every general lemma.
- The notebook's markdown cells, `tbl`, `q`, `md` and the demonstration cell with `a .foo .bar` produce documentation only.
- build/build-test-notebook.mjs and build/download-notebook.mjs are build and download scripts, with no scanner logic.

## Quirks

- The single-quote rewrite leaves the double quote of `\\"` inside single quotes unescaped, so `JSON.parse` then throws (`Quoting.RewriteBackslashQuote`). The model keeps this behaviour as written.
- The `identRe` table expression reads `match.index` without a `null` check, so it throws on a text with no `[$_A-Za-z]` (`Scanner.IdentAtStart`, `Examples.IdentThrows`). None of the table's rows reaches that case.
