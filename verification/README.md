# HeaderUtilities in Dafny

This project models the core of `Microsoft.Net.Http.Headers.HeaderUtilities`, the static class of small
primitives that the HTTP header value types of ASP.NET Core build on, and proves properties of the model:

- **Embedded-value scanner** (`embedded.dfy`, `embedded_examples.dfy`, `findings.dfy`).
  - `TryParseTimeSpan` finds a directive name in a list of raw header values, ignoring case. It then reads the
    `=<seconds>` that follows the name. The first header value that holds the name decides the outcome.
  - `TryParseInt64FromHeaderValue` skips spaces and `=` characters after the name. It needs at least one `=`,
    then reads the digit run that follows.
  - `Contains` checks only that the name occurs somewhere.
  - `TimeSpan.FromSeconds` turns the seconds into a duration. It raises an overflow beyond 922337203685 seconds in
    magnitude, and the model carries that as a failure outcome.
- **Integer parsers** (`integers.dfy`, with the decimal and fixed-width helpers in `numbers.dfy`).
  - The whole-string `TryParseInt32`/`TryParseInt64` accept only a non-empty run of ASCII digits that fits the
    width, followed by nothing but NUL characters, which the framework's number parser allows at the end.
  - The windowed `StringSegment` variants accumulate digits in unchecked 32- or 64-bit arithmetic. They report
    success with 0 for a view that holds a non-digit.
- **List cursor** (`cursor.dfy`). `GetNextNonEmptyOrWhitespaceIndex` skips whitespace and one comma, or every
  comma-and-whitespace step when empty values are skipped. It reports whether it found a separator.
- **Collection equality** (`collections.dfy`). `AreEqualCollections` is order-independent greedy matching over an
  `alreadyFound` array. Under the elements' own equality it is multiset equality.
- **Quality parameter** (`quality.dfy`). `SetQuality` and `GetQuality` act on the `q` entry of a parameter list.
  - A value outside [0, 1] raises a range error.
  - A value rewrites the first `q` entry in place, or appends one.
  - No value removes the first `q` entry.
- **Validators** (`grammar.dfy`, with reference scanners in `ruleparser.dfy`).
  - `CheckValidToken` and `CheckValidQuotedString` raise an argument error on an empty value. They raise a format
    error when the grammar scanner does not consume the whole value.
  - `RemoveQuotes` strips one pair of surrounding double quotes.
- **Shared definitions.** `outcomes.dfy` holds `Option`, `Result` and the three exceptions the code raises.
  `text.dfy` holds ordinal case-insensitive comparison and `IndexOf`.

The grammar scanners of `HttpRuleParser` are parameters of the model: `GetTokenLength`, `GetQuotedStringLength`
and `GetWhitespaceLength`. `ruleparser.dfy` gives reference instances that follow the `token`, `quoted-string`
and `OWS` rules of RFC 7230 section 3.2. These instances are used for the worked examples.

**Two consequences of the code worth knowing.**
- Removing the quality parameter (lines 44-51) removes only the first `q` entry. A second removal is therefore
  a no-op only when at most one `q` entry exists: `QualityProperties.UnsetIdempotent` proves that case, and
  `QualityProperties.UnsetWithTwoQualities` shows that with two `q` entries the second removal changes the list
  again.
- The windowed parsers (lines 315-318 and 353-356) accumulate with `result *= 10; result += digit` in unchecked
  arithmetic, so a long digit run wraps around. `TryParseTimeSpan` reads its digits through the 64-bit windowed
  parser (line 273), so its seconds wrap as well (see Findings).

## Model

| member | source | states |
|---|---|---|
| Text.IndexOf | src/Microsoft.Net.Http.Headers/HeaderUtilities.cs:208 | the result is -1 exactly when the target occurs nowhere ignoring case; otherwise the target occurs at the result and at no earlier position |
| EmbeddedValue.ContainsMeaning | src/Microsoft.Net.Http.Headers/HeaderUtilities.cs:225-237 | `Contains` holds exactly when some header value holds the target, ignoring case |
| EmbeddedValue.TryParseInt64FromHeaderValue | src/Microsoft.Net.Http.Headers/HeaderUtilities.cs:239-281 | the method succeeds with v exactly when the directive reading after the start index yields v; on failure the value is 0 |
| EmbeddedValueProperties.DirectiveDigitsMeaning | src/Microsoft.Net.Http.Headers/HeaderUtilities.cs:241-268 | after the start index the longest run of spaces and '=' is skipped; digits are read exactly when that run holds an '=' and a digit follows, and then the whole digit run is read |
| EmbeddedValue.SkipSpacesAndEqualsAt | src/Microsoft.Net.Http.Headers/HeaderUtilities.cs:242-254 | any run of spaces and '=' that ends at a stopping character is the run the scanner skips |
| EmbeddedValue.DigitRunEndAt | src/Microsoft.Net.Http.Headers/HeaderUtilities.cs:258-269 | any digit run that ends at a non-digit or the end is the run the scanner reads |
| EmbeddedValue.TryParseTimeSpan | src/Microsoft.Net.Http.Headers/HeaderUtilities.cs:204-223 | when it returns, the value is the seconds read after the first header value that holds the target, or none; it raises an overflow exactly when those seconds lie outside the `TimeSpan` range; a returned duration implies `Contains` |
| EmbeddedValue.TimeSpanOutcome | src/Microsoft.Net.Http.Headers/HeaderUtilities.cs:204-223 | the outcome of the scan: the seconds read, or none, or an overflow exactly when seconds were read outside the `TimeSpan` range |
| EmbeddedValue.FromSeconds | src/Microsoft.Net.Http.Headers/HeaderUtilities.cs:217 | `TimeSpan.FromSeconds` on whole seconds returns them exactly when `seconds * 1000` milliseconds lie within `long.MaxValue / 10000` in magnitude, which is a magnitude of at most 922337203685 seconds; otherwise it raises an overflow |
| EmbeddedValueProperties.LoneDirective | src/Microsoft.Net.Http.Headers/HeaderUtilities.cs:204-281 | a single header value `h=<digits>` reads its whole digit run, however long |
| EmbeddedValue.HolderDecides | src/Microsoft.Net.Http.Headers/HeaderUtilities.cs:208-216 | a header value that holds the target decides the digits of the list from that value on, and the list from there contains the target |
| EmbeddedValue.PassOver | src/Microsoft.Net.Http.Headers/HeaderUtilities.cs:206-210 | a header value that does not hold the target is passed over without changing the outcome |
| EmbeddedValueProperties.FirstHolderDecides | src/Microsoft.Net.Http.Headers/HeaderUtilities.cs:204-223 | the digits read are those after the first header value holding the target, and none when no value holds it |
| EmbeddedValueProperties.FirstMatchDecides | src/Microsoft.Net.Http.Headers/HeaderUtilities.cs:212-216 | once a header value holds the target, values appended after it never change the outcome, even when that value fails |
| EmbeddedValueProperties.FoundImpliesContains | src/Microsoft.Net.Http.Headers/HeaderUtilities.cs:204-237 | digits are read only from a list that contains the target; without it nothing is reported |
| EmbeddedValueExamples.SingleHeaderH | test/Microsoft.Net.Http.Headers.Tests/HeaderUtilitiesTest.cs:50 | "h=1" with target "h" gives 1 second |
| EmbeddedValueExamples.FirstDirective | test/Microsoft.Net.Http.Headers.Tests/HeaderUtilitiesTest.cs:51 | "header1=3, header2=10" with target "header1" gives 3 |
| EmbeddedValueExamples.SpacesBeforeEquals | test/Microsoft.Net.Http.Headers.Tests/HeaderUtilitiesTest.cs:52 | "header1   =45, header2=80" gives 45 |
| EmbeddedValueExamples.SpacesAfterEquals | test/Microsoft.Net.Http.Headers.Tests/HeaderUtilitiesTest.cs:53 | "header1=   89   , header2=22" gives 89 |
| EmbeddedValueExamples.SecondDirective | test/Microsoft.Net.Http.Headers.Tests/HeaderUtilitiesTest.cs:54 | a directive after another in the same value is found, with a space after its '=': "a=1, h= 2" gives 2 |
| EmbeddedValueExamples.NoDigitsAfterEquals | test/Microsoft.Net.Http.Headers.Tests/HeaderUtilitiesTest.cs:63 | "h=" fails |
| EmbeddedValueExamples.EmptyValueNotRetried | test/Microsoft.Net.Http.Headers.Tests/HeaderUtilitiesTest.cs:64 | "header1=, header2=10" fails for "header1" |
| EmbeddedValueExamples.NoEqualsBeforeComma | test/Microsoft.Net.Http.Headers.Tests/HeaderUtilitiesTest.cs:65 | "header1   , header2=80" fails: no '=' before the comma |
| EmbeddedValueExamples.TargetNotPresent | test/Microsoft.Net.Http.Headers.Tests/HeaderUtilitiesTest.cs:66 | "h=10" fails for target "header" |
| EmbeddedValueExamples.EmptyInputs | test/Microsoft.Net.Http.Headers.Tests/HeaderUtilitiesTest.cs:67-68 | an empty header value and an empty list both fail |
| EmbeddedValueExamples.LongestDuration | src/Microsoft.Net.Http.Headers/HeaderUtilities.cs:217 | "h=922337203685" returns a duration of 922337203685 seconds, the largest a `TimeSpan` holds |
| EmbeddedValueExamples.DurationOverflow | src/Microsoft.Net.Http.Headers/HeaderUtilities.cs:217 | "h=922337203686" raises an overflow instead of returning |
| EmbeddedValueExamples.FailureIsTerminal | src/Microsoft.Net.Http.Headers/HeaderUtilities.cs:212-216 | ["max-age=", "max-age=10"] fails: the loop breaks at the first value and never tries the second |
| IntegerParsers.TryParseInt32 | src/Microsoft.Net.Http.Headers/HeaderUtilities.cs:283-286 | success exactly when the input without its trailing NULs is a non-empty run of ASCII digits whose value is at most 2^31-1; the value is then that run's decimal value, otherwise 0; for an all-digit input, success exactly when it is non-empty and within the bound |
| IntegerParsers.TryParseInt64 | src/Microsoft.Net.Http.Headers/HeaderUtilities.cs:288-291 | the same with the bound 2^63-1 |
| IntegerParsers.NulTrimmedLength | src/Microsoft.Net.Http.Headers/HeaderUtilities.cs:283-291 | the point where the trailing run of NULs begins: everything after it is NUL and the character before it is not |
| IntegerParsers.TrailingNulsIgnored | src/Microsoft.Net.Http.Headers/HeaderUtilities.cs:283-291 | appending NULs to a digit string changes neither parse |
| IntegerParsers.TrailingNulExamples | src/Microsoft.Net.Http.Headers/HeaderUtilities.cs:283-291 | "1\0" parses to 1 and "0\0\0" to 0; "\0" and "1\0a" are refused with 0 |
| IntegerParsers.Accumulate | src/Microsoft.Net.Http.Headers/HeaderUtilities.cs:283-291 | width-checked accumulation succeeds exactly when the input is all digits with a value within the bound, and yields that value |
| IntegerParsers.WholeStringExamples | test/Microsoft.Net.Http.Headers.Tests/HeaderUtilitiesTest.cs:75-122 | "0" parses to 0; "", "-1", "a", "1.1" and "1,000" are refused with 0 |
| IntegerParsers.Int64MaxAccepted | test/Microsoft.Net.Http.Headers.Tests/HeaderUtilitiesTest.cs:91 | "9223372036854775807" parses to `long.MaxValue` |
| IntegerParsers.Int64OverflowRefused | test/Microsoft.Net.Http.Headers.Tests/HeaderUtilitiesTest.cs:81 | "9223372036854775808" is refused with 0 |
| IntegerParsers.Int32MaxAccepted | test/Microsoft.Net.Http.Headers.Tests/HeaderUtilitiesTest.cs:116 | "2147483647" parses to `int.MaxValue` |
| IntegerParsers.Int32OverflowRefused | test/Microsoft.Net.Http.Headers.Tests/HeaderUtilitiesTest.cs:106 | "2147483648" is refused with 0 |
| IntegerParsers.TryParseSegment | src/Microsoft.Net.Http.Headers/HeaderUtilities.cs:293-367 | success exactly when the view is non-empty; an all-digit view yields its value wrapped to the width; a view with any other character yields 0 |
| IntegerParsers.TryParseInt32Segment | src/Microsoft.Net.Http.Headers/HeaderUtilities.cs:293-329 | the 32-bit windowed parse, as above; where the whole-string parse of the view succeeds, so does the windowed one, with the same value when the view holds only digits (a view ending in NULs gives 0) |
| IntegerParsers.TryParseInt64Segment | src/Microsoft.Net.Http.Headers/HeaderUtilities.cs:331-367 | the 64-bit windowed parse, as above; where the whole-string parse of the view succeeds, so does the windowed one, with the same value when the view holds only digits (a view ending in NULs gives 0) |
| IntegerParsers.UShortDigitIsAsciiDigit | src/Microsoft.Net.Http.Headers/HeaderUtilities.cs:315 | on a UTF-16 code unit the unsigned test `(ushort)(c - 0x30) <= 9` accepts exactly the ASCII digits, with the digit's value |
| IntegerParsers.AccumulateStep | src/Microsoft.Net.Http.Headers/HeaderUtilities.cs:315-320 | one loop step keeps the running result equal to the wrapped value of the digits read so far |
| FixedWidth.WrapAccumulate | src/Microsoft.Net.Http.Headers/HeaderUtilities.cs:317-318 | wrapping after each of `result *= 10` and `result += digit` equals wrapping the exact accumulation |
| FixedWidth.Wrap64 | src/Microsoft.Net.Http.Headers/HeaderUtilities.cs:355-356 | unchecked 64-bit arithmetic lands in the `long` range and leaves in-range values unchanged |
| ListCursor.GetNextNonEmptyOrWhitespaceIndex | src/Microsoft.Net.Http.Headers/HeaderUtilities.cs:167-200 | the result lies between the start and the end; a separator is found exactly when a comma follows the leading whitespace; without one the result is the whitespace-skipped position; with one and no skipping, the position after the comma and its whitespace; with skipping, the result is at the end or on a non-comma |
| ListCursor.SeparatorRunEndUnique | src/Microsoft.Net.Http.Headers/HeaderUtilities.cs:190-197 | the comma-and-whitespace steps from a position lead to exactly one value position |
| ListCursor.EmptyValuesCollapse | src/Microsoft.Net.Http.Headers/HeaderUtilities.cs:190-197 | in "a,,  ,b", skipping empty values from index 1 reaches the 'b' at index 6 |
| Collections.AreEqualCollections | src/Microsoft.Net.Http.Headers/HeaderUtilities.cs:101-165 | a null collection equals only null or an empty collection; different counts are unequal; otherwise the verdict is that of greedy first-unclaimed matching |
| Collections.EveryFlagSet | src/Microsoft.Net.Http.Headers/HeaderUtilities.cs:159-162 | when two collections of equal size are found equal, every `alreadyFound` flag is set |
| CollectionsMultiset.EqualCollectionsIsMultiset | src/Microsoft.Net.Http.Headers/HeaderUtilities.cs:106-165 | under the elements' own equality, two non-null collections are equal exactly when they are equal as multisets |
| CollectionsMultiset.GreedyFits | src/Microsoft.Net.Http.Headers/HeaderUtilities.cs:130-157 | greedy matching succeeds exactly when the remaining elements of `x` fit in the unclaimed elements of `y` |
| CollectionsMultiset.EqualCollectionsSymmetric | src/Microsoft.Net.Http.Headers/HeaderUtilities.cs:101-165 | under the elements' own equality the verdict is symmetric |
| CollectionsMultiset.EqualCollectionsReflexive | src/Microsoft.Net.Http.Headers/HeaderUtilities.cs:101-165 | under the elements' own equality every collection equals itself |
| CollectionsMultiset.EqualCollectionsIgnoresOrder | src/Microsoft.Net.Http.Headers/HeaderUtilities.cs:101-165 | reordering a collection does not change the verdict |
| Quality.FindQuality | src/Microsoft.Net.Http.Headers/HeaderUtilities.cs:21 | the position found holds a parameter named "q" ignoring case, and no earlier one does |
| Quality.GetQuality | src/Microsoft.Net.Http.Headers/HeaderUtilities.cs:54-71 | the result is the parse of the first `q` entry's value, and nothing when there is no `q` entry |
| Quality.SetQuality | src/Microsoft.Net.Http.Headers/HeaderUtilities.cs:17-52 | the setter fails exactly when a value outside [0, 1] is given, and then with a range error |
| QualityProperties.OutOfRangeRefused | src/Microsoft.Net.Http.Headers/HeaderUtilities.cs:29-32 | 1.5 and -0.5 are refused with a range error whatever the list holds |
| QualityProperties.SetRewritesInPlace | src/Microsoft.Net.Http.Headers/HeaderUtilities.cs:35-38 | with a `q` entry present, a value rewrites that entry's value at the same position, keeps its name and changes no other entry |
| QualityProperties.SetAppends | src/Microsoft.Net.Http.Headers/HeaderUtilities.cs:39-42 | without a `q` entry, a value appends exactly one entry named "q" at the end and keeps the rest |
| QualityProperties.UnsetRemoves | src/Microsoft.Net.Http.Headers/HeaderUtilities.cs:44-51 | no value removes the first `q` entry and shifts later entries down; without one the list is unchanged |
| QualityProperties.OthersPreserved | src/Microsoft.Net.Http.Headers/HeaderUtilities.cs:17-52 | whatever the setter does, the non-`q` entries keep their order and values |
| QualityProperties.GetAfterSet | src/Microsoft.Net.Http.Headers/HeaderUtilities.cs:54-71 | after a value is set, `GetQuality` reads back the parse of that value's rendering |
| QualityProperties.SetTwice | src/Microsoft.Net.Http.Headers/HeaderUtilities.cs:29-42 | setting two values in turn gives the same list as setting the second once |
| QualityProperties.UnsetIdempotent | src/Microsoft.Net.Http.Headers/HeaderUtilities.cs:44-51 | with at most one `q` entry, a removal leaves none, so a second removal changes nothing |
| QualityProperties.UnsetWithTwoQualities | src/Microsoft.Net.Http.Headers/HeaderUtilities.cs:44-51 | with two `q` entries, one removal leaves the second, which `GetQuality` then reads |
| Grammar.CheckValidToken | src/Microsoft.Net.Http.Headers/HeaderUtilities.cs:73-84 | the check passes exactly when the value is non-empty and the token scanner consumes all of it; an argument error is raised exactly for the empty value |
| Grammar.TokenValidUnderRfc7230 | src/Microsoft.Net.Http.Headers/HeaderUtilities.cs:80 | under the RFC 7230 token rule a value passes exactly when it is a non-empty run of `tchar` |
| Grammar.TokenExamples | src/Microsoft.Net.Http.Headers/HeaderUtilities.cs:73-84 | "gzip" passes, "gz ip" raises a format error, "" raises an argument error |
| Grammar.CheckValidQuotedString | src/Microsoft.Net.Http.Headers/HeaderUtilities.cs:86-99 | the check passes exactly when the value is non-empty and the scanner parses one quoted string spanning all of it; an argument error is raised exactly for the empty value |
| Grammar.QuotedStringValidUnderRfc7230 | src/Microsoft.Net.Http.Headers/HeaderUtilities.cs:86-99 | under the RFC 7230 quoted-string rule (section 3.2.6) a value passes exactly when it is a quote, a body of `qdtext` (HTAB, SP and visible or `obs-text` characters other than '"' and '\\') and `quoted-pair`s (a backslash before HTAB, SP, a visible or an `obs-text` character), and a closing quote ending the value |
| Grammar.TrailingCharactersRefused | src/Microsoft.Net.Http.Headers/HeaderUtilities.cs:94-95 | a quoted string followed by anything, even whitespace, raises a format error |
| Grammar.QuotedStringExamples | src/Microsoft.Net.Http.Headers/HeaderUtilities.cs:86-99 | "\"a b\"" and a string with an escaped quote pass; a trailing space, an unterminated string, and a newline or NUL inside the quotes raise a format error |
| Grammar.RemoveQuotes | src/Microsoft.Net.Http.Headers/HeaderUtilities.cs:389-396 | the value is unchanged exactly when it is not at least two characters with a quote at each end; otherwise it is the content between the quotes |
| Grammar.RemoveQuotesUndoesQuoting | src/Microsoft.Net.Http.Headers/HeaderUtilities.cs:389-396 | removing the quotes from a quoted content gives back the content |
| Grammar.RemoveQuotesExamples | src/Microsoft.Net.Http.Headers/HeaderUtilities.cs:389-396 | a lone quote is kept, a pair of quotes becomes empty, an unclosed quote is kept |
| EmbeddedValueFindings.WrappedSeconds | src/Microsoft.Net.Http.Headers/HeaderUtilities.cs:273 | "h=18446744073709551617" is read as 1 second, where the width-checked reading refuses it |
| EmbeddedValueFindings.WrappedToOverflow | src/Microsoft.Net.Http.Headers/HeaderUtilities.cs:273 | "h=9223372036854775808" wraps to -2^63 seconds and then raises an overflow, where the width-checked reading refuses it |
| EmbeddedValueFindings.TimeSpanSecondsChecked | src/Microsoft.Net.Http.Headers/HeaderUtilities.cs:204-281 | the intended reading: a value exactly when the digit run is at most 2^63-1, and then that value, which agrees with the code |

## Left out

- `TryParseDate` and `FormatDate` delegate to an RFC 1123 date formatter that is not part of this model.
- `FormatInt64` and `ThrowIfReadOnly` are thin wrappers around the framework's number formatting and an exception.
- `TimeSpan.FromSeconds` is modelled on whole seconds: its bound is computed exactly, and the duration is kept as
  its number of seconds, not as ticks.
- Floating point in the quality parameter is not modelled. Quality values are reals. The `"0.0##"` rendering and
  `double.TryParse` are parameters (`Formatter`, `QualityParser`). The range check is modelled over reals.
- `HttpRuleParser` is not part of this model. Its `GetTokenLength`, `GetQuotedStringLength` and
  `GetWhitespaceLength` are parameters. The instances in `ruleparser.dfy` follow RFC 7230 section 3.2 and only
  serve the examples.
- `NameValueHeaderValue` is not part of this model. `Find` is modelled as the first entry whose name equals "q"
  under ASCII case folding. `IList.Remove` is modelled as removing the entry found, since no earlier entry can
  equal it: its name differs. The `Value` setter's format check and read-only check are left out. A rendering
  of an in-range quality is always a valid value.
- Ordinal case-insensitive comparison is modelled as ASCII case folding. Folding of non-ASCII letters is left out.
- Strings are sequences of Dafny characters, not UTF-16 code units. The windowed parsers' unsigned digit test
  is modelled on those characters; `IntegerParsers.UShortDigitIsAsciiDigit` shows it accepts exactly the
  ASCII digits.
- Null strings are modelled as empty strings, where the code treats the two alike. Null collections are
  `None`, and a null `StringValues` is the empty list.
- EmbeddedValue.TryParseTimeSpan: a null target and a null element of the list are not modelled, because
  strings in the model are never null. In the code, the first makes `IndexOf` raise `ArgumentNullException`
  and the second raises `NullReferenceException`. The same holds for `EmbeddedValue.Contains`.
- `Contract.Requires` and `Contract.Assert` are compiled out unless `CONTRACTS_FULL` is defined, or `DEBUG` for
  `Contract.Assert`. The model does not raise their failures. Their conditions appear as preconditions or as
  proved facts: the assertion at line 161 is `Collections.EveryFlagSet`.
- The windowed parsers walk a `char*` inside `unsafe`/`fixed`; the model walks the same positions by index.
- Collections.AreEqualCollections: with a caller-supplied comparer only the null, count and `alreadyFound`
  facts are proved. Multiset equality is proved for the elements' own equality only. A comparer need not be
  an equivalence, and then the greedy verdict can depend on order.
- QualityProperties.UnsetIdempotent: idempotence is proved only for lists with at most one `q` entry. The code
  does not give it for more (see `QualityProperties.UnsetWithTwoQualities`).
- EmbeddedValueExamples.SecondDirective: the test at line 54 has a longer header value of the same shape. The
  model proves the shape on a shorter value.

## Findings

| source | as written | input that shows it | evidently intended | confidence | as-written member | corrected member |
|---|---|---|---|---|---|---|
| src/Microsoft.Net.Http.Headers/HeaderUtilities.cs:273 | `TryParseInt64FromHeaderValue` reads the digit run with the windowed `TryParseInt64(StringSegment)` (lines 331-367), which has no overflow check, so a run beyond `long.MaxValue` wraps modulo 2^64 | `TryParseTimeSpan(["h=18446744073709551617"], "h")` returns a duration of 1 second. Most overflowing runs wrap outside ±922337203685 and raise `TimeSpan.FromSeconds`' overflow instead; "h=9223372036854775808" wraps to -2^63 (`EmbeddedValueFindings.WrappedToOverflow`) | refuse a digit run whose value exceeds `long.MaxValue`, as the whole-string `TryParseInt64` does | medium; not executed | EmbeddedValueFindings.WrappedSeconds | EmbeddedValueFindings.TimeSpanSecondsChecked |
