# SPNK-DL core, modelled in Dafny

SPNK-DL downloads tracks from YouTube and similar services. This project models four pieces of its TypeScript code that do not depend on the network:

- **The signature decipher engine.** It is written twice, in `src/Platforms/YouTube/Decipher.ts` and `src/Structures/YouTube/Decipher.ts`. It has three parts:
  - `cutAfterJS` finds the balanced `[…]` or `{…}` span at the start of a piece of player JavaScript.
  - The fallback path decodes signatures by tokens. `parseTokens` and `replacer` turn the helper object's keys and the driver's call sites into tokens (`rv`, `slN`, `spN`, `swN`). `DecodeSignature` and `swapPositions` apply those tokens to the signature's characters.
  - `extractFunctions` and `extractManipulations` cut the decipher and n-code routines out of the player by their textual anchors. They assemble the routines into self-contained source units.
- **The cookie codec** of `src/httpsClient/Cookie.ts`. It has three parts:
  - `ParsingCookieToJson` reads `k=v; k2=v2` text into an object.
  - `ParsingCookieToString` writes an object back as text.
  - `uploadCookie` merges the stored cookie with a new one.
- **Duration text** in `src/Structures/Duration.ts`:
  - `ParsingTimeToNumber` reads `m:s`, `h:m:s` and `d:h:m:s`;
  - `ParsingTimeToString`, `toFixed0` and `toString` render the zero-padded fields.

## How the model is organised

| module (file) | what it holds |
|---|---|
| `Wrappers` (`wrappers.dfy`) | `Option` and `Result`. They stand for the source's `null`/`undefined` returns and its thrown errors. |
| `JsText` (`jstext.dfy`) | The JavaScript string built-ins the core relies on: `trim`, `indexOf`, `split(sep)[0]`, `split(sep)[1]`, `split(";")`, `join`, and decimal digit strings. |
| `Variants` (`variants.dfy`) | `Variant = Platforms \| Structures`. It selects where the two copies of the decipher engine differ. |
| `Scanner` (`scanner.dfy`, `scanner_examples.dfy`) | The scanner loop of `cutAfterJS`, as a method. It is proved against a recursive step function; the lemmas that define the result are stated for that function. |
| `Tokens` (`tokens.dfy`) | `DecodeSignature` over a `char` array, `swapPositions` in place, and the algebra of the token operations. |
| `TokenParser` (`token_parser.dfy`) | `replacer`, the key list, and the token loop of `parseTokens`, taken from the point where the regular expressions have matched. |
| `Extractor` (`extractor.dfy`) | The anchor splits, `extractManipulations`, the decipher and n-code units, and `extractFunctions` for both copies. |
| `Cookie` (`cookie.dfy`) | Objects as insertion-ordered association lists, plus the parser, the serialiser, the merge and the round trip. |
| `Duration` (`duration.dfy`) | The parser as written and as corrected, the renderer, and the round trips. |

The two decipher copies differ in four ways, and the model follows each parameter:

1. **The regex-prefix set of the scanner.** The Structures copy adds `/` (`src/Structures/YouTube/Decipher.ts:164`). The `|| /…/` alternative there is dead code, because a regular-expression literal is always truthy.
2. **The order of the cases in the `switch` of `parseTokens`.**
   - In the Platforms copy, `keys[3]` (swap) is tested first.
   - In the Structures copy, `keys[0]` (reverse) is tested first.
3. **The order of evaluation in `extractFunctions`.**
   - The Platforms copy finishes the decipher unit before it reads the n-code name.
   - The Structures copy reads both names first.
4. **Never-settling extractions in the Structures copy.** That copy never settles its promise for an empty body or for an empty result (`src/Structures/YouTube/Decipher.ts:68`, `:94`). This is modelled as the outcome `Unsettled`.

Where the code and its documentation disagree, the model follows the code:

- A missing anchor makes `split(anchor)[1]` undefined. The following `.split` then throws a `TypeError`. So a missing anchor aborts the whole `extractFunctions` call, not just the one routine. The model returns `Threw(MissingPiece(anchor))`.
- The `^` of the regex-prefix test anchors the start of the look-behind window (`substring(i - 10, i)`), not the start of the text. So once `i >= 2`, only the last one or two characters of the window decide whether `/` opens a regular expression (`Scanner.PrefixWindow`).
- The hours converter of `ParsingTimeToNumber` multiplies by the seconds of a day. This is recorded under "## Findings". `Duration.ParsingTimeToNumber` models the code as written. `Duration.ParsingTimeToNumberCorrected` models the evident intent.

## Model

| member | source | states |
|---|---|---|
| `JsText.TrimStartMeaning` | src/httpsClient/Cookie.ts:42-43 | The start trim removes exactly the leading whitespace: the result is a suffix of the input, does not start with whitespace, and everything dropped is whitespace. |
| `JsText.TrimEndMeaning` | src/httpsClient/Cookie.ts:42-43 | The end trim removes exactly the trailing whitespace: the result is a prefix of the input, does not end with whitespace, and everything dropped is whitespace. |
| `JsText.TrimTrimmed` | src/httpsClient/Cookie.ts:42-43 | `trim()` leaves no whitespace at either end and adds no character the input lacks. |
| `JsText.TrimIdentity` | src/httpsClient/Cookie.ts:42-43 | Trimming text that is already trimmed changes nothing. |
| `JsText.TrimSurrounding` | src/httpsClient/Cookie.ts:42-43 | Trimming trimmed text that is surrounded by whitespace gives back exactly that text. |
| `JsText.IndexOfMeaning` | src/Structures/YouTube/Decipher.ts:110-111 | `indexOf` finds the first occurrence at or after the start position. When it finds none, there is none. |
| `JsText.SplitHeadMeaning` | src/Structures/YouTube/Decipher.ts:106 | `split(sep)[0]` is the longest prefix without an occurrence of `sep`. It ends at the end of the text or at the first occurrence. |
| `JsText.SplitSecond` | src/Structures/YouTube/Decipher.ts:70 | `split(sep)[1]` is undefined exactly when `sep` does not occur. |
| `JsText.SplitSecondMeaning` | src/Structures/YouTube/Decipher.ts:70 | `split(sep)[1]` is the text right after the first `sep`, up to the next `sep` or the end. |
| `JsText.SplitCharJoin` | src/httpsClient/Cookie.ts:36 | No piece of `split(c)` holds `c`, and joining the pieces with `c` gives back the text. |
| `JsText.SplitJoined` | src/httpsClient/Cookie.ts:36 | Splitting a join of pieces without `c` gives back those pieces. |
| `JsText.DecimalString` | src/Structures/Duration.ts:34 | The decimal text of a number is a non-empty digit string whose value is that number. It is one digit long exactly for numbers below 10. |
| `Scanner.LookBehind` | src/Platforms/YouTube/Decipher.ts:314 | `substring(i - 10, i)` is the window of the last `min(i, 10)` characters before `i`. |
| `Scanner.PrefixWindow` | src/Platforms/YouTube/Decipher.ts:139 | The regex-prefix test passes exactly when at least one of these holds: the window is empty; the window is a single whitespace character; the previous character is a prefix character; the previous two are a prefix character and one whitespace character. |
| `Scanner.OpeningSegmentCases` | src/Platforms/YouTube/Decipher.ts:311-318 | `"`, `'` and `` ` `` always open a literal. `/` opens a regular expression only when the prefix test passes. No other character opens one. |
| `Scanner.LiteralSuspendsCounting` | src/Structures/YouTube/Decipher.ts:187-203 | Inside a literal the bracket counter does not change. An escaped character never closes the literal, and a backslash escapes the next character. |
| `Scanner.SlashOpensRegex` | src/Structures/YouTube/Decipher.ts:193 | An unescaped `/` outside a literal opens a regular-expression literal exactly when the prefix test accepts the window. |
| `Scanner.ScanFromStops` | src/Platforms/YouTube/Decipher.ts:304-334 | Run from a reachable state, the loop returns an index at which it stops. When it throws "no matching closing bracket", it stops at no index from there on. |
| `Scanner.CounterPositive` | src/Platforms/YouTube/Decipher.ts:329-333 | From the start of the text up to the stop, the counter of unclosed brackets stays at least 1. |
| `Scanner.BalancedSpanContract` | src/Platforms/YouTube/Decipher.ts:290-338 | `cutAfterJS` throws "unsupported" exactly when the text does not start with `[` or `{`. It throws "no matching closing bracket" exactly when the loop never stops. Otherwise it returns the prefix that ends at the first stop. That prefix opens with the start bracket and closes with the matching bracket, and the counter stays positive before its end. |
| `Scanner.BalancedSpanShape` | src/Structures/YouTube/Decipher.ts:171-214 | The result of `cutAfterJS`: an error kind that matches the input, or a prefix of at least two characters from the start bracket to its matching close. |
| `Scanner.CutAfterJS` | src/Platforms/YouTube/Decipher.ts:290-338 | The loop method returns or throws exactly what the reference scanner gives, in either copy (the Structures copy is `src/Structures/YouTube/Decipher.ts:171-214`, with its own prefix set). |
| `ScannerExamples.QuotedBraceIgnored` | src/Platforms/YouTube/Decipher.ts:132-136 | `{a:'}',b:1}` is returned whole, because the `}` inside the quotes is not counted. |
| `ScannerExamples.EscapedQuote` | src/Platforms/YouTube/Decipher.ts:325 | In `['\']',1]` the escaped quote does not end the literal, so the whole text is returned. |
| `ScannerExamples.UnclosedBrace` | src/Platforms/YouTube/Decipher.ts:337 | `{a:1` throws "no matching closing bracket". |
| `ScannerExamples.NotABracket` | src/Platforms/YouTube/Decipher.ts:293-296 | `a{}` and the empty text throw "unsupported". |
| `ScannerExamples.SlashAfterSlash` | src/Structures/YouTube/Decipher.ts:164 | On `{a:b//}/}` the copies differ. The Platforms copy stops at the first `}`. The Structures copy treats `/}/` as a regular expression and returns the whole text. |
| `Tokens.Reversed` | src/Platforms/YouTube/Decipher.ts:232 | Reversal keeps the length. |
| `Tokens.ReversedAt` | src/Platforms/YouTube/Decipher.ts:232 | Reversal puts the last character first, position by position. |
| `Tokens.DropPrefix` | src/Platforms/YouTube/Decipher.ts:230-231 | `slice(n)` and `splice(0, n)` keep the characters from index `n` on, and none if `n` is past the end. |
| `Tokens.Swapped` | src/Platforms/YouTube/Decipher.ts:339-343 | Index 0 and index `n` exchange their characters, and every other index keeps its character. |
| `Tokens.SwapPositions` | src/Platforms/YouTube/Decipher.ts:339-343 | The in-place swap leaves the array holding the swapped sequence. The Structures copy (`src/Structures/YouTube/Decipher.ts:352-356`) is the same code. |
| `Tokens.ReverseInPlace` | src/Platforms/YouTube/Decipher.ts:232 | `sig.reverse()` leaves the array holding the reversed sequence. |
| `Tokens.SliceArray` | src/Platforms/YouTube/Decipher.ts:230 | `sig.slice(n)` is a new array holding the characters from index `n` on. |
| `Tokens.DecodeSignature` | src/Platforms/YouTube/Decipher.ts:221-236 | The loop applies the tokens first to last, as the reference decoder does. The Structures copy (`src/Structures/YouTube/Decipher.ts:256-271`) is the same code. |
| `Tokens.SwapTwice` | src/Platforms/YouTube/Decipher.ts:339-343 | `swN` applied twice is the identity. |
| `Tokens.ReverseTwice` | src/Platforms/YouTube/Decipher.ts:232 | `rv` applied twice is the identity. |
| `Tokens.SliceZero` | src/Platforms/YouTube/Decipher.ts:230-231 | `sl0` and `sp0` are the identity. |
| `Tokens.OpLength` | src/Platforms/YouTube/Decipher.ts:229-232 | `rv`, `swN` and ignored tokens keep the length. `slN` and `spN` shorten it by `min(N, length)`. |
| `Tokens.ReversedPermutes` | src/Platforms/YouTube/Decipher.ts:232 | Reversal keeps the multiset of characters. |
| `Tokens.SwappedPermutes` | src/Platforms/YouTube/Decipher.ts:339-343 | Swapping keeps the multiset of characters. |
| `Tokens.UnknownTagIgnored` | src/Structures/YouTube/Decipher.ts:263-268 | A token with any other two-letter prefix leaves the signature unchanged. |
| `Tokens.DecodeAppend` | src/Platforms/YouTube/Decipher.ts:224-234 | Decoding a concatenated list is decoding the first part, then the second: the order is strict. |
| `Tokens.DecodePermutes` | src/Structures/YouTube/Decipher.ts:259-269 | Without `sl` or `sp` tokens, decoding only rearranges the characters. |
| `Tokens.ReverseThenSlice` | src/Platforms/YouTube/Decipher.ts:221-236 | `["rv", "sl2"]` turns `abcdef` into `dcba`. |
| `TokenParser.EscapeDollars` | src/Structures/YouTube/Decipher.ts:283-285 | Text without `$` is left unchanged by the `$` escaping. |
| `TokenParser.StripKeeps` | src/Structures/YouTube/Decipher.ts:317 | The global replace keeps, in order, every character it does not remove. |
| `TokenParser.ReplacerUnquotes` | src/Structures/YouTube/Decipher.ts:316-318 | `replacer` removes one leading and one trailing quote: `'ab'` gives `ab`. |
| `TokenParser.StripQuoted` | src/Structures/YouTube/Decipher.ts:317 | On quoted text without `$`, the replace drops exactly the two quotes. |
| `TokenParser.ReplacerBare` | src/Platforms/YouTube/Decipher.ts:280-282 | A key without quotes or `$` passes through unchanged. |
| `TokenParser.ReplacerDollar` | src/Platforms/YouTube/Decipher.ts:281 | The first replace turns `$` into `\$`, and the second deletes the `$` again, so `$a` gives `\a`. |
| `TokenParser.Keys` | src/Platforms/YouTube/Decipher.ts:254-257 | Exactly four keys are pushed: reverse, slice, splice, swap. |
| `TokenParser.FirstCase` | src/Platforms/YouTube/Decipher.ts:265-270 | The `switch` picks a case of the copy's order whose key equals the call site's key. When it picks none, no key in that order equals it. |
| `TokenParser.ParseTokens` | src/Platforms/YouTube/Decipher.ts:242-274 | Gives null when either grammar failed to match. Otherwise gives the tokens of the call sites, in their order, under the pushed keys. This holds in either copy, each with its own case order (the Structures copy is `src/Structures/YouTube/Decipher.ts:277-310`). |
| `TokenParser.SiteToken` | src/Structures/YouTube/Decipher.ts:298-306 | The body of the arrow function pushes the token the call site yields, or nothing. |
| `TokenParser.TokenizeAppend` | src/Platforms/YouTube/Decipher.ts:262-272 | The tokens of two lists of call sites are the tokens of the first, then those of the second: call-site order is kept. |
| `TokenParser.OneTokenPerSite` | src/Platforms/YouTube/Decipher.ts:262-272 | When every call-site key is an operation key, there is exactly one token per call site, and the i-th token is that site's. |
| `TokenParser.RecognisedSiteEmits` | src/Platforms/YouTube/Decipher.ts:264-270 | A call site whose key is defined and equals one of the four keys emits a token, including when that key is the empty string. |
| `TokenParser.EmptyKeyReverses` | src/Platforms/YouTube/Decipher.ts:256-267 | A helper object whose reverse key is `""`, called as `Zz[""](a,1)`, gives `rv` in either copy: `replacer` unquotes `""` to the empty key, and the `["KEY"]` capture is that empty key. |
| `TokenParser.EmptyEarlierCaptureUndefined` | src/Platforms/YouTube/Decipher.ts:264 | An empty capture of the `.KEY` or `['KEY']` alternative makes `result[1] \|\| result[2] \|\| result[3]` undefined, and that call site emits nothing. |
| `TokenParser.UnrecognisedSiteSkipped` | src/Platforms/YouTube/Decipher.ts:264-270 | A call site whose key is undefined, or is a string equal to none of the four keys, emits nothing. An empty-string key is not undefined: it is recognised when one of the keys is `""`. |
| `TokenParser.FirstCaseUnfolded` | src/Platforms/YouTube/Decipher.ts:266-269 | Platforms tests the keys in the order 3, 0, 1, 2. Structures tests them in the order 0, 1, 2, 3. |
| `TokenParser.TokenArgument` | src/Platforms/YouTube/Decipher.ts:266-269 | A token is `rv`, or a numeric prefix followed by the matched digit string, so `parseInt(token.slice(2))` recovers the call's argument. |
| `TokenParser.CasePriority` | src/Structures/YouTube/Decipher.ts:300-305 | The first case that matches wins. Platforms: a swap key gives `sw`. Structures: a reverse key gives `rv`. |
| `TokenParser.CoincidingKeys` | src/Structures/YouTube/Decipher.ts:301-304 | When the reverse key and the swap key coincide, Platforms emits `swN` and Structures emits `rv`. |
| `TokenParser.TokensWellFormed` | src/Platforms/YouTube/Decipher.ts:266-269 | Every emitted token can be classified by `DecodeSignature`. |
| `TokenParser.ReverseThenSliceObject` | src/Platforms/YouTube/Decipher.ts:242-274 | A helper object with reverse key `rv` and slice key `sl`, called as `rv(a,1)` then `sl(a,2)`, gives the tokens `["rv", "sl2"]`. These decode `abcdef` to `dcba`. |
| `Extractor.NameBetweenMeaning` | src/Platforms/YouTube/Decipher.ts:72 | `s.split(sep)[1].split(end)[0]` throws exactly when `sep` is absent. Otherwise it is the text right after the first `sep`. It holds no `end`, no `sep` starts inside it, and it stops at the next `end`, the next `sep` or the end of `s`. |
| `Extractor.ManipulationsAbsent` | src/Structures/YouTube/Decipher.ts:105-111 | `extractManipulations` throws when the caller lacks `a=a.split("");`. It returns `''` when the helper name is empty or `var NAME={` is absent. |
| `Extractor.ManipulationsFound` | src/Structures/YouTube/Decipher.ts:109-113 | Otherwise it returns `var NAME=` followed by the balanced `{…}` span at the first `var NAME={`, or reports the scanner's "no matching closing bracket". |
| `Extractor.FunctionSourceMeaning` | src/Platforms/YouTube/Decipher.ts:75-79 | A routine is cut only when `NAME=function(a)` occurs. It is `var NAME=function(a)` followed by the balanced span right after the first occurrence. |
| `Extractor.DecipherUnitMeaning` | src/Platforms/YouTube/Decipher.ts:74-81 | The decipher unit is pushed only for a non-empty name whose routine occurs. It is the helper object, `;`, the routine, `;` and `NAME(sig);`. |
| `Extractor.DecipherUnitCall` | src/Platforms/YouTube/Decipher.ts:80 | The decipher unit ends with `NAME(sig);`. |
| `Extractor.NCodeUnitMeaning` | src/Platforms/YouTube/Decipher.ts:90-94 | The n-code unit is pushed only for a non-empty name whose routine occurs. It is the routine followed by `;NAME(ncode);`. |
| `Extractor.NCodeUnitCall` | src/Structures/YouTube/Decipher.ts:90 | The n-code unit ends with `NAME(ncode);`. |
| `Extractor.ResolveNCodeNameMeaning` | src/Structures/YouTube/Decipher.ts:85 | A name without `[` is kept. A name with `[` becomes the text right after the first `BASE=[`. That text holds no `]`, no `BASE=[` starts inside it, and it stops at the next `]`, the next `BASE=[` or the end of the body; the index inside the brackets is not read. When `BASE=[` is absent it throws. |
| `Extractor.ElementBetween` | src/Platforms/YouTube/Decipher.ts:88 | The element text starts right after the first `BASE=[`, holds no `]`, has no `BASE=[` starting inside it, and stops at the next `]`, the next `BASE=[` or the end of the body. It throws exactly when `BASE=[` is absent. |
| `Extractor.UnitsFromParts` | src/Structures/YouTube/Decipher.ts:73-91 | The units pushed are at most two: a `(sig);` unit before an `(ncode);` unit. |
| `Extractor.ExtractedUnits` | src/Platforms/YouTube/Decipher.ts:56-101 | A settled extraction found both anchors, and its units are in that order. |
| `Extractor.Settling` | src/Structures/YouTube/Decipher.ts:67-96 | The Platforms copy always returns or throws. The Structures copy never settles exactly when the body is empty or nothing was pushed. |
| `Extractor.MissingAnchorThrows` | src/Platforms/YouTube/Decipher.ts:72-86 | A body without the decipher anchor throws `MissingPiece` for that anchor. A body without the n-code anchor throws. In the Structures copy, a body with the decipher anchor but without the n-code anchor throws for the n-code anchor. |
| `Extractor.ExtractManipulations` | src/Structures/YouTube/Decipher.ts:105-114 | The method returns or throws what the reference `extractManipulations` gives. |
| `Extractor.CutFunction` | src/Platforms/YouTube/Decipher.ts:75-79 | The method cuts the routine as the reference does. |
| `Extractor.ExtractDecipher` | src/Platforms/YouTube/Decipher.ts:71-83 | `extractDecipher` gives the reference decipher unit. |
| `Extractor.ExtractNCode` | src/Platforms/YouTube/Decipher.ts:85-96 | `extractNCode`, after the name has been read, gives the reference n-code unit, including the array-element resolution. |
| `Extractor.ExtractFunctions` | src/Platforms/YouTube/Decipher.ts:56-101 | `extractFunctions` returns, throws or never settles as the reference extraction says, for either copy. |
| `Extractor.ExtractInPlatforms` | src/Platforms/YouTube/Decipher.ts:56-101 | The Platforms order: the decipher unit is pushed, then the n-code name is read and the n-code unit is pushed. |
| `Extractor.ExtractInStructures` | src/Structures/YouTube/Decipher.ts:65-98 | The Structures order: empty body, both names, decipher unit, n-code unit, then the empty result. |
| `Extractor.CollectUnits` | src/Structures/YouTube/Decipher.ts:73-91 | Pushes the decipher unit, then the n-code unit, as the reference assembly does. |
| `Extractor.PushNCode` | src/Platforms/YouTube/Decipher.ts:85-96 | Appends the n-code unit, if any, to the units pushed so far. |
| `Cookie.Get` | src/httpsClient/Cookie.ts:45 | Reading a key gives nothing exactly when the key is absent, and otherwise a value stored under it. |
| `Cookie.GetDistinct` | src/httpsClient/Cookie.ts:45 | In an object whose keys are distinct, each entry's key reads that entry's value. |
| `Cookie.SetEntry` | src/httpsClient/Cookie.ts:45 | The spread `{...Json, [key]: value}` keeps the keys and their order when the key exists, and otherwise appends the entry. |
| `Cookie.SetEntryGet` | src/httpsClient/Cookie.ts:45 | After the spread, the key reads the new value and every other key reads what it read before. |
| `Cookie.SetEntryDistinct` | src/httpsClient/Cookie.ts:45 | The spread keeps every key once. |
| `Cookie.Pairs` | src/httpsClient/Cookie.ts:61 | One `key=value` text per entry, in order. |
| `Cookie.FilteredCookie` | src/httpsClient/Cookie.ts:36-46 | The `forEach` over `cook.split(";")` leaves the accumulator as the reference parse of that text. |
| `Cookie.ParsingCookieToJson` | src/httpsClient/Cookie.ts:32-52 | The method returns the reference parse of a string or of an array of strings. |
| `Cookie.ParsingCookieToString` | src/httpsClient/Cookie.ts:58-63 | The loop returns each entry as `key=value`, joined by `"; "`. |
| `Cookie.PieceWithoutEquals` | src/httpsClient/Cookie.ts:37-40 | A piece without `=` is skipped. |
| `Cookie.PieceKeyValue` | src/httpsClient/Cookie.ts:42-43 | The key is the trimmed text before the first `=`. The value is the trimmed rest, with any further `=` kept. |
| `Cookie.PieceAtFirstEquals` | src/httpsClient/Cookie.ts:37-43 | The same, for a piece cut at its first `=`. |
| `Cookie.PieceEntry` | src/httpsClient/Cookie.ts:36-43 | A piece yields an entry exactly when it has an `=`. That entry is trimmed and its key has no `=`. |
| `Cookie.UnsetKeyKept` | src/httpsClient/Cookie.ts:36-46 | A key that no piece sets reads what it read before the parse. |
| `Cookie.PieceSets` | src/httpsClient/Cookie.ts:45 | A piece that sets a key gives it the piece's value. |
| `Cookie.LastPieceWins` | src/httpsClient/Cookie.ts:45 | A key reads the value of the last piece that sets it: later occurrences overwrite earlier ones. |
| `Cookie.AddPiecesDistinct` | src/httpsClient/Cookie.ts:36-46 | Parsing keeps every key once. |
| `Cookie.AddPiecesAppend` | src/httpsClient/Cookie.ts:36-46 | Parsing two lists of pieces is parsing the first, then the second, into the same accumulator. |
| `Cookie.AddCookiesFlat` | src/httpsClient/Cookie.ts:48-49 | An array is processed string by string into one accumulator, as if all its pieces formed one list. |
| `Cookie.SingleIsOneElementList` | src/httpsClient/Cookie.ts:48-49 | A single string parses like a one-element array. |
| `Cookie.ParsedIsGood` | src/httpsClient/Cookie.ts:32-52 | Every parsed object has each key once, and holds only trimmed entries with keys free of `=` and `;`. |
| `Cookie.SplitWritten` | src/httpsClient/Cookie.ts:36-62 | Splitting the written text at `;` gives the pairs, each after the first still carrying the space of `"; "`. |
| `Cookie.ReadWritten` | src/httpsClient/Cookie.ts:36-46 | Parsing those pieces gives back the object. |
| `Cookie.RoundTrip` | src/httpsClient/Cookie.ts:32-62 | Writing an object and parsing the text gives the object back, when keys have no `=` or `;`, values have no `;`, and neither has surrounding whitespace. |
| `Cookie.EmptyWritesNothing` | src/httpsClient/Cookie.ts:58-62 | The empty object is written as `""`. |
| `Cookie.MergeGet` | src/httpsClient/Cookie.ts:22 | In `{...A, ...B}`, a key of the new cookie reads the new cookie's value, and any other key reads the stored value. |
| `Cookie.MergeKeys` | src/httpsClient/Cookie.ts:22 | The merge holds every key of both objects and no other. |
| `Cookie.MergeGood` | src/httpsClient/Cookie.ts:22 | Merging two writable objects gives a writable object. |
| `Cookie.UploadRoundTrip` | src/httpsClient/Cookie.ts:17-26 | The text `uploadCookie` writes parses back as the merge of the stored cookie and the new one. |
| `Duration.TimePartsAreDigits` | src/Structures/Duration.ts:5 | Every part of `split(":")` of digit-and-colon text is a digit string. |
| `Duration.ToFixed0` | src/Structures/Duration.ts:33-44 | `toString` of a field is a digit string of at least two digits whose value is the field. It has exactly two digits below 100, and no colon. |
| `Duration.JoinedFields` | src/Structures/Duration.ts:5-26 | Digit fields joined by `:` split back into the same fields. |
| `Duration.ReadParts` | src/Structures/Duration.ts:5-17 | The value depends only on the parts of `split(":")`, through the `switch` on their count. |
| `Duration.TwoParts` | src/Structures/Duration.ts:8-16 | `m:s` gives `m*60 + s`, as written and as corrected. |
| `Duration.ThreeParts` | src/Structures/Duration.ts:6-15 | As written, `h:m:s` gives `h*86400 + m*60 + s`. |
| `Duration.ThreePartsCorrected` | src/Structures/Duration.ts:15 | Corrected, `h:m:s` gives `h*3600 + m*60 + s`. |
| `Duration.FourParts` | src/Structures/Duration.ts:14 | As written, `d:h:m:s` gives `d*86400 + h*86400 + m*60 + s`. |
| `Duration.FourPartsCorrected` | src/Structures/Duration.ts:14 | Corrected, `d:h:m:s` gives `d*86400 + h*3600 + m*60 + s`. |
| `Duration.PartCount` | src/Structures/Duration.ts:5-17 | There is always at least one part, so line 11 is never reached for a string. One part, or five or more, match no case and give undefined, in both readings. |
| `Duration.DaysAndHoursInterchangeable` | src/Structures/Duration.ts:6-14 | As written, exchanging the days and hours fields of `d:h:m:s` does not change the value. |
| `Duration.ShownFields` | src/Structures/Duration.ts:26 | Two to four fields are shown, each of exactly two digits. |
| `Duration.ShownCases` | src/Structures/Duration.ts:26 | Days are shown only above 0. Hours are shown when hours or days are above 0. Minutes and seconds are always shown. |
| `Duration.Rendering` | src/Structures/Duration.ts:19-27 | The rendered text is the shown fields joined by `:`. An absent minute or second is rendered as `00`. |
| `Duration.Layout` | src/Structures/Duration.ts:19-27 | The rendered text is digits and colons, and splits at `:` into exactly the shown fields. |
| `Duration.ShownValue` | src/Structures/Duration.ts:20-26 | Read back, the shown fields give days, hours, minutes and seconds weighted by the hour length used. |
| `Duration.FieldsAddUp` | src/Structures/Duration.ts:20-23 | Below 24 days, a number of seconds is its days, hours, minutes and seconds fields, weighted. |
| `Duration.RenderedZero` | src/Structures/Duration.ts:26 | 0 is rendered as `00:00`. |
| `Duration.RenderedMinuteAndFive` | src/Structures/Duration.ts:26 | 65 is rendered as `01:05`. |
| `Duration.RenderedHour` | src/Structures/Duration.ts:21-26 | 3600 is rendered as `01:00:00`. |
| `Duration.RoundTripBelowAnHour` | src/Structures/Duration.ts:16-26 | Below one hour, reading back the rendered text gives the same number of seconds. |
| `Duration.HoursReadAsDays` | src/Structures/Duration.ts:7-26 | As written, from one hour to one day the rendered text reads back as more seconds than were rendered: each hour counts as a day. |
| `Duration.HourReadAsDay` | src/Structures/Duration.ts:7-15 | As written, 3600 seconds read back as 86400. |
| `Duration.RoundTripCorrected` | src/Structures/Duration.ts:14-26 | With the corrected hours converter, every number of seconds below 24 days reads back as itself. |

## Left out

- The execution of the extracted routines through `vm.Script.runInNewContext` is not modelled. It runs code in a foreign JavaScript interpreter.
- The URL and query-string handling of `setDownloadURL`, `_decipher`, `_ncode` and `setDownload` is not modelled. It consists of Node's `URL`, `querystring` and `URLSearchParams` and their percent-decoding, which are library code.
- The regular-expression grammars (`obj_regexp`, `function_regexp`, the per-operation expressions and `regExp.*`) are not modelled. `TokenParser.ParseTokens` takes what they matched as its input: the four captured keys, each possibly absent, and the call sites in textual order. Each call site carries its key after `||` (`TokenParser.CapturedKey` writes that operator out over the three captures; `None` is undefined) and its digit string.
- The Promise-based drivers `Decipher.parseFormats`, `OldDecipher.parseFormats`, `extractSignature` and `getFunctions` are not modelled. They fetch the player over the network and remove formats from the list while iterating over it.
- The network fetch of the page is not modelled. `Extractor.ExtractFunctions` takes the page body as a parameter.
- The file reads and writes of `getCookies` and `uploadCookie` are not modelled. `Cookie.UploadedCookie` takes the stored cookie text as a parameter and returns the text that would be written. The catch that rethrows "Cookie file has damaged!" does not arise in the model.
- `Tokens.DecodeSignature`: requires every `swN` to stay inside the signature. With `N` at or past the end, the source grows a sparse JavaScript array.
- `Tokens.DecodeSignature`: requires numeric tokens to have a digit-string argument. `parseInt` of other text gives `NaN`, and `parseTokens` never emits such a token (`TokenParser.TokensWellFormed`).
- `Tokens.SliceArray`: `sig.slice(n)` allocates a new array. `sig.splice(0, n)` changes the array in place, but it is modelled by the same allocation of a new array holding the kept characters, because the caller sees only the result.
- `Cookie.CookieJson`: keys are kept in insertion order. JavaScript objects list integer-like keys first, in numeric order; that reordering is not modelled.
- Strings are sequences of Unicode characters. `trim()` uses the whitespace set of the ECMAScript standard, and UTF-16 surrogate pairs are not distinguished.
- `Duration.ParsingTimeToNumber`: requires text of decimal digits and colons. `Number()` of other text (signs, decimals, exponent forms, whitespace) and the `NaN` it can give are not modelled. An empty part reads as 0, as `Number("")` does.
- `Duration.ParsingTimeToNumber`: the `typeof duration === "number"` branch and the `null`/`undefined` input of line 11 are not modelled, because the parameter is text.
- `Duration.ParsingTimeToString`: takes whole, non-negative numbers of seconds. Fractional and negative durations, and floating-point arithmetic beyond 2^53, are not modelled. For a natural number, `parseInt` of the floating-point quotient is the integer quotient.
- `Duration.RoundTripCorrected`: holds below 24 days only, because the code takes the day count modulo 24 (`src/Structures/Duration.ts:20`).
- `Extractor.Settling`: a promise that never settles is the outcome `Unsettled`. Timing and the order of callbacks are not modelled.

## Findings

| source | as written | input that shows it | evidently intended | confidence | as-written member | corrected member |
|---|---|---|---|---|---|---|
| src/Structures/Duration.ts:7 | the `hours` converter multiplies by `(60 * 60) * 24`, the seconds of a day | `ParsingTimeToString(3600)` renders `01:00:00`, and `ParsingTimeToNumber("01:00:00")` reads it back as 86400 | `hours` multiplies by `60 * 60`, so that rendered text reads back as the seconds rendered | not executed | `Duration.HoursReadAsDays` | `Duration.RoundTripCorrected` |
