# chomp: a parser-combinator engine, modelled in Dafny

chomp is a small Kotlin parser-combinator library (one file,
`src/main/kotlin/Main.kt`). A parser is an immutable descriptor:
- `Just(lit)` matches a literal prefix.
- `Then(left, right)` runs two parsers one after the other and pairs their values.
- `Padded(parser)` skips whitespace before and after its parser.

Every `parse` call returns a fresh `ParserResult(remaining, result, errors)`.
The only error kind is `JustError(expected, got)`.

The project has three modules:

- `Text` (`text.dfy`): the Kotlin string operations the parsers use. `StartsWith` is `String.startsWith`; `TrimStart` is `String.trimStart`. `IsWhitespace` is a fixed table of the code points that Kotlin/JVM `Char.isWhitespace` accepts.
- `Chomp` (`chomp.dfy`): the engine as Main.kt is written, on text counted in Unicode scalar values (see "## Left out"). The parser hierarchy is a datatype `Parser`. `ParseJust` and `Parse` do what the `parse` overrides do. The builders `then` and `padded` are the members `Parser.AndThen` and `Parser.Pad`, because `Then` and `Padded` are already the constructor names. A `substring` past the end of the input throws; this is the outcome `OutOfBounds`, and it propagates through `Then` and `Padded` as an exception would.
- `Intended` (`intended.dfy`): the same engine with three defects of the code corrected (see "## Findings"). It reuses the `Chomp` datatypes.

Main.kt itself shows what three lines evidently mean to do:
- Line 31: the first field of `ParserResult` is named `remaining` (line 26), and `Then` hands that field to its right side (line 44). The demonstration composition at line 63 only makes sense if the right side sees `"  world!  "`. So `Just` is meant to put the unconsumed rest in `remaining` and the literal in `result`.
- Line 33: errors are values, built by `JustError(...).toResult` (lines 13-17, 34). A throw on short input bypasses that error model.
- Line 57: `Then` passes its children's errors on (lines 42 and 45). `Padded` alone drops them.

`Chomp` follows the code as written. `Intended` makes these three corrections.

In both engines a padded literal that starts with whitespace can never match. The first `trimStart` (line 53) has already removed the whitespace the literal needs.

## Model

| member | source | states |
|---|---|---|
| Text.StartsWithIsPrefix | src/main/kotlin/Main.kt:30 | `Text.StartsWith`, the model of `input.startsWith(just)`, holds exactly when the prefix is no longer than the text and equals the text's first characters |
| Text.TrimStart | src/main/kotlin/Main.kt:53-55 | the result is a suffix of the text, everything dropped is whitespace, and the result does not start with whitespace |
| Text.TrimStartSkipsPrefix | src/main/kotlin/Main.kt:53 | whitespace put in front of a text does not change what `trimStart` returns |
| Chomp.ParseError.ToString | src/main/kotlin/Main.kt:20-23 | the message is `Expected: "`, then the expected text, then `" got: "`, then the text found, then a closing quote; its length is the two texts' lengths plus 20 |
| Chomp.ParseError.ToResult | src/main/kotlin/Main.kt:15-17 | gives a failed result: the given remainder, no value, and this one error |
| Chomp.Parser.AndThen | src/main/kotlin/Main.kt:4-6 | builds the sequence of this parser and the next one, leaving both unchanged; its literals are the literals of both |
| Chomp.Parser.Pad | src/main/kotlin/Main.kt:8-10 | wraps this parser unchanged in `Padded`; its literals are this parser's |
| Chomp.ParseJust | src/main/kotlin/Main.kt:28-37 | throws exactly when the input is shorter than the literal; succeeds exactly when the input starts with it, then with the literal as `remaining` and the rest of the input as `result` (the two join back to the input); otherwise returns one `JustError(lit, first \|lit\| characters)` (a slice different from the literal), the whole input as `remaining`, and no value |
| Chomp.Parse | src/main/kotlin/Main.kt:39-59 | for every parser tree: at most one error, and no value whenever there is an error |
| Chomp.JustEmptySucceeds | src/main/kotlin/Main.kt:30-31 | the empty literal succeeds on every input, with no errors |
| Chomp.ErrorsComeFromLiterals | src/main/kotlin/Main.kt:32-45 | every reported error names one of the tree's literals, and the slice it got has the same length and differs from that literal |
| Chomp.ThenLeftFailure | src/main/kotlin/Main.kt:41-42 | a throwing left side makes `Then` throw; a failing left side makes it fail with the original input, no value and the left errors; either way the outcome does not depend on the right parser |
| Chomp.ThenRightFailure | src/main/kotlin/Main.kt:44-45 | left succeeds and right fails on the left remainder: `Then` reports the original input, no value and the right errors unchanged |
| Chomp.ThenRightThrows | src/main/kotlin/Main.kt:44 | left succeeds and right throws on the left remainder: `Then` throws |
| Chomp.ThenSuccess | src/main/kotlin/Main.kt:44-47 | both sides succeed: no errors, the right remainder, and the ordered pair of the two results |
| Chomp.ThenFailureReportsInput | src/main/kotlin/Main.kt:42-45 | a failed `Then` always reports the input it was given as `remaining` |
| Chomp.ThenFeedsMatchedLiteral | src/main/kotlin/Main.kt:31-47 | after a matching `Just`, the right side of `Then` runs on the literal itself, and the pair's first half is the unconsumed rest of the input |
| Chomp.PaddedResult | src/main/kotlin/Main.kt:53-57 | the inner parser runs on the trimmed input and throws exactly when `Padded` does; the result has no errors, the inner value and the trimmed inner remainder, which does not start with whitespace |
| Chomp.PaddedIgnoresLeadingWhitespace | src/main/kotlin/Main.kt:53-54 | putting whitespace in front of a padded parser's input changes nothing |
| Chomp.PaddedTransparent | src/main/kotlin/Main.kt:53-57 | with no whitespace at the input's start or after the match, `Padded` keeps the inner remainder and value; when the inner parse has no errors the whole result is the inner one |
| Chomp.DemoSwapsFields | src/main/kotlin/Main.kt:62-63 | the demonstration composition, on its input, returns remainder `"Hello, "`, left value `"  world!  "`, no right value and no errors |
| Chomp.ShortInputThrows | src/main/kotlin/Main.kt:33 | `Just("x")` on the empty input throws |
| Chomp.PaddedDropsErrors | src/main/kotlin/Main.kt:57 | `Just("a")` fails on `"b"`, while `Padded(Just("a"))` on `"b"` returns no value and no errors |
| Intended.ParseJust | src/main/kotlin/Main.kt:28-37 | corrected literal: succeeds exactly when the input starts with the literal, then with the literal as value and the rest as remainder; otherwise one error whose slice is the input's first `min(\|lit\|, \|input\|)` characters, never a throw |
| Intended.Parse | src/main/kotlin/Main.kt:39-59 | corrected engine: at most one error, and no value whenever there is an error |
| Intended.ValueIffNoErrors | src/main/kotlin/Main.kt:57 | in the corrected engine a value is present exactly when no error is reported, for every tree and input |
| Intended.SuccessLeavesSuffix | src/main/kotlin/Main.kt:31 | in the corrected engine a successful parse leaves a suffix of its input |
| Intended.PaddedReportsErrors | src/main/kotlin/Main.kt:57 | in the corrected engine `Padded` reports exactly its parser's errors on the trimmed input |
| Intended.PaddedTransparent | src/main/kotlin/Main.kt:53-57 | in the corrected engine, on input with no whitespace at its start or after the match, a padded parser's result equals its parser's, failures included |
| Intended.PaddedLiteralConsumesWhitespace | src/main/kotlin/Main.kt:51-59 | in the corrected engine, a padded literal that is not empty and whose first character is not whitespace matches between two runs of whitespace, and consumes everything |
| Intended.DemoParsesBothLiterals | src/main/kotlin/Main.kt:62-63 | in the corrected engine the demonstration composition yields the pair `("Hello, ", "world!")` and an empty remainder |
| Intended.ShortInputReported | src/main/kotlin/Main.kt:33 | in the corrected engine `Just("x")` on the empty input fails with `JustError("x", "")` |

## Findings

| source | as written | input that shows it | evidently intended | confidence | as-written member | corrected member |
|---|---|---|---|---|---|---|
| src/main/kotlin/Main.kt:31 | `ParserResult(just, suffix)` puts the literal in `remaining` and the rest of the input in `result`, so `Then` runs its right side on the literal | `Just("Hello, ").then(Just("world!").padded())` on `"Hello,   world!  "` | `remaining` is the rest of the input, `result` the literal: the field is named `remaining` (line 26) and `Then` parses it next (line 44) | high, not executed | Chomp.DemoSwapsFields | Intended.DemoParsesBothLiterals |
| src/main/kotlin/Main.kt:33 | `input.substring(just.indices)` throws when the input is shorter than the literal | `Just("x")` on `""` | a mismatch error whose slice is the whole input, since errors are result values (lines 13-17, 34) | high, not executed | Chomp.ShortInputThrows | Intended.ShortInputReported |
| src/main/kotlin/Main.kt:57 | `Padded` rebuilds its result without the inner errors, so a failure becomes an error-free result with no value | `Just("a").padded()` on `"b"` | the inner failure passes through, as `Then` passes errors on (lines 42, 45) | high, not executed | Chomp.PaddedDropsErrors | Intended.ValueIffNoErrors |

## Left out

- `main` and its `println` (src/main/kotlin/Main.kt:61-65): a console demonstration. Its composition appears only inside the two demonstration lemmas.
- The `toString`, `equals` and `hashCode` that Kotlin generates for the data class `ParserResult`: only `main` uses them, to print the outcome.
- The JVM's `StringIndexOutOfBoundsException`: it is the outcome tag `OutOfBounds`, with no exception type, message or stack.
- The type parameters of `Parser<T>`, and the unchecked casts `as L` and `as R` at line 47: values are one untyped `Value` datatype. A pair holds both optional values as they are, so a null from `Padded` stays null.
- The open class hierarchies of `Parser` and `ParseError` become closed datatypes holding just the three parsers and the one error that exist.
- Text.IsWhitespace: a fixed table of the JVM whitespace and space-separator code points. Kotlin's `Char` is a UTF-16 code unit, but Dafny's `char` is a Unicode scalar value. Surrogate pairs are not modelled, and no whitespace character is a surrogate.
- Chomp.ParseJust: lengths and indices count Unicode scalar values, while Kotlin's `length`, `indices` and `substring` (lines 31, 33) count UTF-16 code units. So on text outside the Basic Multilingual Plane (BMP), the throw condition and the `got` slice differ from the source. For example, `Just("ab")` on `"😀"` throws in the model, but in Kotlin it returns `JustError("ab", "😀")`. A Kotlin slice can also split a surrogate pair, which the model cannot express. The same holds for Intended.ParseJust.
