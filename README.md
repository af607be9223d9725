# String calculator in Dafny

This is a model of `StringCalculator.Add` from StringCalculator/StringCalculator.cs, with its two helpers `SafeSubstring` and `TryGetDelimHeader`.

`Add` takes an optional C# string, since the reference may be null. It works in these steps:

- It may read a `//<delimiters>\n` header.
- It splits the rest on the delimiter characters, using a comma when there is no header.
- It parses every piece with `int.TryParse`.
- It skips values of 1000 or more and collects the negatives.
- It returns the 32-bit sum, or throws.

The model has five files:

- `wrappers.dfy`: the `Option` type.
- `int32_text.dfy`: the parts of .NET's `Int32` that `Add` uses.
  - Unchecked wrap-around, which is what `total += num` does.
  - `int.TryParse` under `NumberStyles.Integer` and the invariant culture.
  - `Int32.ToString()`.
- `strings.dfy`: the `String` operations that `Add` calls.
  - `IndexOf(char)`.
  - `Split(char[])`, which keeps empty pieces.
  - `TrimEnd(char)`.
- `calculator.dfy`: the calculator itself.
  - `Outcome` holds the result or the exception thrown.
  - `SafeSubstring`.
  - The header pattern `(?<=//).*(?=\n)` as a leftmost-match search.
  - `AddSpec`, a step-by-step specification of `Add`.
  - The method `Add`, with its `foreach` loop in `SumNumbers` and `VisitNumber`.
  - `Reference`, a second specification that describes the result without a loop, with lemmas that connect the two.
- `calculator_examples.dfy`: cases from StringCalculator.Tests/StringCalculatorTests.cs, proved from the general lemmas.

An `Outcome` is one of:

- `Ok(sum)`.
- `ArgumentNull(message)`. The message is `None` for a null input, which uses the default message.
- `ArgumentOutOfRange(reason)`.
- `InvalidOperation`. This is what `Enumerable.Last()` throws on an empty header, as in `"//\n1"`.

Two details of the C# code shape the model:

- `Add` tests for `""` before it tests for null, so an empty input returns 0 and a null input throws.
- An input that starts with `//` but has no `'\n'` is not treated as a header. `Add` splits it on commas, and its first token starts with `/` and so fails to parse (`AddHeaderWithoutNewline`).

## Model

| member | source | states |
|---|---|---|
| `Int32Text.Wrap32` | StringCalculator/StringCalculator.cs:90 | The unchecked `total += num` result is always inside the Int32 range; the value is defined as the one in range that differs from the sum by a multiple of 2^32 |
| `Int32Text.Wrap32Keeps` | StringCalculator/StringCalculator.cs:90 | A sum that fits in 32 bits is kept unchanged |
| `Int32Text.Wrap32Mod` | StringCalculator/StringCalculator.cs:90 | The wrapped value equals the closed two's-complement formula `(x + 2^31) mod 2^32 - 2^31` |
| `Int32Text.Wrap32Add` | StringCalculator/StringCalculator.cs:90 | Wrapping after every addition gives the same total as wrapping once at the end |
| `Int32Text.SkipWhite` | StringCalculator/StringCalculator.cs:70 | `TryParse`'s white-space scan stops at the first character that is not U+0009–U+000D or U+0020, and everything skipped is white space |
| `Int32Text.SkipDigits` | StringCalculator/StringCalculator.cs:70 | The digit scan stops at the first non-digit, and everything skipped is a digit |
| `Int32Text.TryParse` | StringCalculator/StringCalculator.cs:70 | `int.TryParse` succeeds only with a value inside the Int32 range |
| `Int32Text.TryParseComplete` | StringCalculator/StringCalculator.cs:70 | Every text of the form white space, optional sign, digits, white space parses, and its result is its signed decimal value when that is in range, failure otherwise |
| `Int32Text.TryParseSound` | StringCalculator/StringCalculator.cs:70 | Every text that parses has that form, and its result is the value that form denotes |
| `Int32Text.TryParseRejectsOtherFirstChar` | StringCalculator/StringCalculator.cs:70-75 | A token starting with anything other than white space, a sign or a digit (such as '/') never parses |
| `Int32Text.TryParseNeedsDigit` | StringCalculator/StringCalculator.cs:70-75 | An empty or all-white-space token never parses |
| `Int32Text.NatToString` | StringCalculator/StringCalculator.cs:85 | The decimal text of a number is non-empty, all digits, without leading zeros, and its digits denote the number |
| `Int32Text.IntToString` | StringCalculator/StringCalculator.cs:85 | `num.ToString()` ends in a digit and holds no comma, so the audit's separators are unambiguous |
| `Int32Text.ParseToStringRoundTrip` | StringCalculator/StringCalculator.cs:85 | Parsing the text of any Int32 value gives the value back |
| `Strings.IndexOf` | StringCalculator/StringCalculator.cs:53-55 | The result is the first position holding the character, or -1 exactly when it does not occur |
| `Strings.Split` | StringCalculator/StringCalculator.cs:66 | k delimiter occurrences give k + 1 pieces, and no piece contains a delimiter |
| `Strings.SplitRebuilds` | StringCalculator/StringCalculator.cs:66 | The pieces, rejoined with the separators that cut them, give back the whole input, so nothing is lost or reordered |
| `Strings.SplitWithoutSeparators` | StringCalculator/StringCalculator.cs:66 | Text without any delimiter is a single piece, itself |
| `Strings.SplitFirstPiece` | StringCalculator/StringCalculator.cs:66 | The first piece starts with the input's first character when that is not a delimiter |
| `Strings.TrimEnd` | StringCalculator/StringCalculator.cs:96 | The result is a prefix that does not end in the character, and all that was removed was that character |
| `StringCalculator.SafeSubstring` | StringCalculator/StringCalculator.cs:103-106 | A result is a slice of the input, no longer than asked; from start 0 it always succeeds with the first min(length, \|s\|) characters |
| `StringCalculator.HeaderTest` | StringCalculator/StringCalculator.cs:32 | The header test succeeds exactly when the input begins with "//" |
| `StringCalculator.MatchFrom` | StringCalculator/StringCalculator.cs:110-116 | The result is a match of the pattern (preceded by "//", no '\n' inside, followed by '\n') at or after the position, and no match starts earlier |
| `StringCalculator.HeaderIsMatch` | StringCalculator/StringCalculator.cs:108-120 | A returned header is text the pattern matches, and null comes back exactly when the pattern matches nowhere |
| `StringCalculator.HeaderIsFirstLine` | StringCalculator/StringCalculator.cs:108-120 | For input that begins with "//", the header is everything from index 2 up to the first '\n', and there is none without a '\n' |
| `StringCalculator.TryGetDelimHeader` | StringCalculator/StringCalculator.cs:108-120 | The header is the text of the leftmost match, or null without one; `HeaderIsMatch` and `HeaderIsFirstLine` state what that text is |
| `StringCalculator.HeaderOf` | StringCalculator/StringCalculator.cs:32-44 | The header is only looked for after the `SafeSubstring(0, 2) == "//"` test; `HeaderTest` and `HeaderIsFirstLine` show it is s[2..first '\n') for a "//" prefix with a '\n', and absent otherwise |
| `StringCalculator.CutHeader` | StringCalculator/StringCalculator.cs:53-55 | Drops the text up to the last header delimiter's first occurrence, then up to and including the next '\n'; `BodyFollowsHeader` shows that for an accepted header this leaves exactly the text after the header's '\n' |
| `StringCalculator.WithHeader` | StringCalculator/StringCalculator.cs:44-58 | A '/' in the header throws, an empty header reaches `Last()` and throws, and otherwise the cut body is split on the header's characters; `AddWithHeader` states the resulting outcome |
| `StringCalculator.Step` | StringCalculator/StringCalculator.cs:77-91 | One loop turn for a parsed number; `VisitNumber` is proved to perform it, and `StepSummary` shows it moves the summary of the values by one value |
| `StringCalculator.Scan` | StringCalculator/StringCalculator.cs:63-92 | The loop over the tokens, failing at an unparsable one; `ScanComputes` shows its total is the wrapped sum of the values in [0, 999] and its audit lists every negative |
| `StringCalculator.Conclude` | StringCalculator/StringCalculator.cs:94-99 | The parse failure, the negatives check with `TrimEnd(',')`, or the total; `ConcludeScan` shows this equals `Reference` |
| `StringCalculator.AddSpec` | StringCalculator/StringCalculator.cs:15-100 | What `Add` returns, step by step; `Add` is proved to agree with it, and `AddEmptyOrNull`, `AddWithoutHeader`, `AddWithHeader`, `AddHeaderWithoutNewline` and `AddHeaderOnly` describe it case by case |
| `StringCalculator.Reference` | StringCalculator/StringCalculator.cs:62-99 | The outcome of the numbers part without a loop: a failed parse, else every negative reported, else the wrapped sum of the values in [0, 999]; `ConcludeScan` ties it to the loop |
| `StringCalculator.Add` | StringCalculator/StringCalculator.cs:15-100 | The method's outcome is `AddSpec`'s for every input, including null, empty, header errors and parse failures |
| `StringCalculator.SumNumbers` | StringCalculator/StringCalculator.cs:62-99 | The loop, checked by an invariant over the processed prefix of tokens, followed by the negatives check, gives the outcome of the scan |
| `StringCalculator.VisitNumber` | StringCalculator/StringCalculator.cs:68-91 | One turn of the loop for a parsed number moves `total` and `negativeAudit` exactly as `Step` does |
| `StringCalculator.ScanNext` | StringCalculator/StringCalculator.cs:66-92 | Scanning one more token that parses is one more `Step` |
| `StringCalculator.ScanStopsAtFailure` | StringCalculator/StringCalculator.cs:72-75 | One token that does not parse makes the whole loop fail, whatever comes after it |
| `StringCalculator.ParseAll` | StringCalculator/StringCalculator.cs:70 | It fails exactly when some token does not parse; otherwise it holds each token's value, in order |
| `StringCalculator.SmallSum` | StringCalculator/StringCalculator.cs:77-91 | The sum of the values in [0, 999] is never negative and at most 999 per token |
| `StringCalculator.Negatives` | StringCalculator/StringCalculator.cs:82-86 | Only negative values are collected, and none are collected exactly when no value is negative |
| `StringCalculator.JoinInts` | StringCalculator/StringCalculator.cs:96 | The reported list of a non-empty set of negatives ends in a digit, so there is no trailing comma |
| `StringCalculator.StepSummary` | StringCalculator/StringCalculator.cs:77-91 | One loop step on the summary of some values gives the summary of those values plus the new one |
| `StringCalculator.StepSkipsLarge` | StringCalculator/StringCalculator.cs:77-80 | A value of 1000 or more changes neither the sum nor the negatives |
| `StringCalculator.StepAuditsNegative` | StringCalculator/StringCalculator.cs:82-86 | A negative value leaves the total alone and appends its text and ',' to the audit |
| `StringCalculator.StepAddsSmall` | StringCalculator/StringCalculator.cs:88-91 | A value in [0, 999] is added to the sum and leaves the audit alone |
| `StringCalculator.SmallSumSnoc` | StringCalculator/StringCalculator.cs:77-91 | Adding a value extends the small-value sum by that value when it is in [0, 999] and by nothing otherwise |
| `StringCalculator.NegativesSnoc` | StringCalculator/StringCalculator.cs:82-86 | Adding a value appends it to the negatives exactly when it is negative |
| `StringCalculator.AuditSnoc` | StringCalculator/StringCalculator.cs:85 | The audit text for one more negative is the old text, the negative's text and ',' |
| `StringCalculator.ScanComputes` | StringCalculator/StringCalculator.cs:66-92 | The loop fails exactly when some token does not parse; otherwise its total is the 32-bit sum of the values in [0, 999] and its audit lists every negative in order |
| `StringCalculator.AuditTrimmed` | StringCalculator/StringCalculator.cs:94-96 | The audit text is empty exactly when there are no negatives; trimming its commas leaves the negatives joined by ',' |
| `StringCalculator.AuditIsListWithComma` | StringCalculator/StringCalculator.cs:85 | The audit text is the comma-joined negatives followed by one ',' |
| `StringCalculator.ConcludeScan` | StringCalculator/StringCalculator.cs:62-99 | The loop and the final check give `Reference`: a parse failure wins even over earlier negatives, then all negatives are reported, else the sum |
| `StringCalculator.SumFits` | StringCalculator/StringCalculator.cs:63-91 | While 999 times the token count fits in 32 bits, the total is the plain sum and is never negative |
| `StringCalculator.BodyFollowsHeader` | StringCalculator/StringCalculator.cs:51-55 | For an accepted header, cutting up to the last delimiter's first occurrence and then the next '\n' leaves exactly the text after the header's own '\n' |
| `StringCalculator.AddEmptyOrNull` | StringCalculator/StringCalculator.cs:20-29 | Empty input gives 0; null input gives ArgumentNullException |
| `StringCalculator.AddWithoutHeader` | StringCalculator/StringCalculator.cs:18-99 | Without a "//" prefix, the outcome is `Reference` over the comma-split tokens |
| `StringCalculator.AddWithHeader` | StringCalculator/StringCalculator.cs:32-58 | With a "//" prefix and a first '\n' at n: a '/' in the header gives the header error, an empty header gives InvalidOperation, and otherwise the outcome is `Reference` over the text after the '\n', split on exactly the header's characters |
| `StringCalculator.AddHeaderWithoutNewline` | StringCalculator/StringCalculator.cs:32-75 | "//" without any '\n' falls back to commas and always fails with "Invalid characters specified." |
| `StringCalculator.AddHeaderOnly` | StringCalculator/StringCalculator.cs:53-75 | An accepted header with nothing after it leaves one empty token and fails with "Invalid characters specified." |
| `CalculatorExamples.OnePlusTwo` | StringCalculator.Tests/StringCalculatorTests.cs:11 | "1,2" gives 3 |
| `CalculatorExamples.NewlinePadding` | StringCalculator.Tests/StringCalculatorTests.cs:12 | "1\n,2" gives 3 |
| `CalculatorExamples.SemicolonHeader` | StringCalculator.Tests/StringCalculatorTests.cs:24 | "//;\n1;2" gives 3 |
| `CalculatorExamples.SlashInHeader` | StringCalculator.Tests/StringCalculatorTests.cs:42 | "////////;\n1;2" gives the header error |
| `CalculatorExamples.EmptyHeader` | StringCalculator/StringCalculator.cs:53 | "//\n1" gives InvalidOperation |
| `CalculatorExamples.SingleNegative` | StringCalculator.Tests/StringCalculatorTests.cs:51 | "-1" gives "Negatives not allowed: -1" |
| `CalculatorExamples.DanglingDelimiter` | StringCalculator.Tests/StringCalculatorTests.cs:36 | "1,\n" gives ArgumentNullException with "Invalid characters specified." |

## Left out

- Exception messages: the model keeps the exception kind and the fixed message text. It leaves out the parameter name and the suffix .NET appends to the message.
- Culture: `int.TryParse` and `Int32.ToString()` use the invariant culture. The sign symbols that come from `CurrentCulture` are not modelled, neither for parsing a token nor for the negative sign in the "Negatives not allowed" message. .NET's tolerance of trailing NUL characters in `int.TryParse` is not modelled either.
- UTF-16: strings are sequences of Unicode scalar values, not UTF-16 code units. A header character outside the Basic Multilingual Plane is one delimiter in the model but two surrogate delimiters in .NET. For example, `"//😀\n1😀2"` gives `Ok(3)` in the model, but .NET splits it into "1", "" and "2" and throws ArgumentNullException. Strings holding lone surrogates cannot be represented.
- `DelimiterHeaderConstraints`: this only holds the constants "//" and "\n", which are written into `MatchesAt` directly.
- The regular-expression engine: only the one pattern `Add` uses is modelled, as a leftmost-match search.
- Nulls: `TryGetDelimHeader` returning null and a null input are modelled as `None`.
- The rest of the test file: only a selection of its cases is stated as lemmas. The general lemmas cover the others.
- Class and extension-method form: the static class and extension methods are modelled as module-level functions and methods. `Add` has no I/O and no shared state.
