# i18n formatting core in Dafny

This project models the formatting side of the `i18n` JavaScript library,
following the behaviour its tests pin down:

- **Date conversion** (`DateConverter`, `PatternTokenizer`). A date pattern
  such as `MM/dd/yyyy` is read once into tokens. A field token is a maximal
  run of one symbol out of `y M d H m s`. Any other character is a
  one-character literal token.
  - Rendering shows each field zero-padded to its run length. A `yy` field
    shows the year modulo 100.
  - Scanning is fixed-width. Each literal must match itself, and each field
    consumes exactly its run length of digits. A mismatch, leftover text or
    an impossible calendar date is a `ParseError`. The error carries the whole
    input, and its message is `invalid parsed value [<input>]`.
  - An absent date renders as `""`. An absent or empty text scans to no date
    and is not an error.
  - Building a converter never fails: an absent or empty pattern falls back
    to the default pattern.
- **Formatting-record resolution** (`I18nManager.FindFormattingInfo`, the
  library's `_findFormattingInfo`). The table maps locale tags to records,
  and the lookup tries four candidates in order:
  1. the exact active locale;
  2. its language subtag (the text before the first `-`);
  3. the exact fallback locale;
  4. the default record.

  The first record found is returned as stored; no record is merged with
  another. The test at src/utils/I18nManager.converters.spec.js:205-219
  settles that the language subtag is tried before the fallback locale. `dateFormat`, and the date, date-time, integer and decimal
  converters, are built from the resolved record.
- **Number conversion** (`NumberConverter`). A pattern such as
  `#,##0.00#######` gives these settings:
  - the minimum count of integer digits (its `0`s before the point);
  - whether digits are grouped (a `,` before the point);
  - the mandatory fraction digits (`0`s after the point);
  - the optional fraction digits (`#`s after the point).

  A locale's record adds:
  - the decimal and grouping separator characters;
  - `numberGroupingSeparatorUse`;
  - `numberDecimalSeparatorUseAlways`, which shows a bare trailing decimal
    separator when no fraction digit is shown.

  Parsing drops grouping separators and reads the decimal separator as the
  point.

Numbers are non-negative fixed-point values: a whole part and a sequence of
fraction digits. Dates are records of naturals with the month counted from 1.
The tests' concrete cases are proved as lemmas in the `…Examples` modules.

## Model

| member | source | states |
|---|---|---|
| `PatternTokenizer.Tokenize` | src/converters/DateConverter.spec.js:19-25 | The tokens spell the pattern back exactly. They are canonical: literals lie outside the symbol alphabet, and fields are non-empty, maximal runs of one symbol. |
| `PatternTokenizer.TokenizeUntokenize` | src/converters/DateConverter.spec.js:19-31 | Tokenizing the spelling of any canonical token sequence gives that sequence back, so a pattern has exactly one tokenization. |
| `PatternTokenizer.UntokenizeConcat` | src/utils/I18nManager.converters.spec.js:56-60 | Spelling distributes over concatenation. This is how the date-time pattern splits into the date pattern and the time pattern. |
| `DateConverter.Create` | src/converters/DateConverter.spec.js:42-46 | Building a converter is total. An absent or empty pattern gives the default pattern; any other pattern is kept. |
| `DateConverter.ValueToString` | src/converters/DateConverter.spec.js:7-10 | An absent date renders as `""`. A date whose fields fit their widths renders with the pattern's layout: digits exactly under field symbols, and the pattern's literals elsewhere. |
| `DateConverter.RenderShape` | src/converters/DateConverter.spec.js:19-25 | When every field value fits its run length, the rendering has the pattern's length, with digits under fields and literals copied unchanged. |
| `DateConverter.RenderConcat` | src/utils/I18nManager.converters.spec.js:56-60 | Rendering a concatenation of token sequences is the concatenation of their renderings. |
| `DateConverter.Scan` | src/converters/DateConverter.spec.js:33-39 | For canonical tokens, the scan succeeds exactly when the text has the pattern's layout. |
| `DateConverter.StringToValue` | src/converters/DateConverter.spec.js:12-17 | An absent or empty text gives no date and no error. Every error quotes the whole input. A text without the pattern's layout is an error. A success is a valid calendar date read from a text with the pattern's layout. |
| `DateConverter.ScanRender` | src/converters/DateConverter.spec.js:27-28 | Scanning a rendering reads back exactly the value each field showed. |
| `DateConverter.CollectRestores` | src/converters/DateConverter.spec.js:27-28 | The values read back rebuild the date when the components the pattern omits already agree and any two-digit year widens back. |
| `DateConverter.RoundTrip` | src/converters/DateConverter.spec.js:27-28 | Parsing a rendered valid date returns that date. This needs its fields to fit, its unmentioned components at their epoch values, and any two-digit year to widen back. |
| `DateConverter.OnPattern` | src/converters/DateConverter.spec.js:27-28 | The date a scan can recover: it shows the same value as the given date in every field of the pattern, has the epoch values in every component the pattern omits, and is the given date itself when that already has them. |
| `DateConverter.RoundTripOnPattern` | src/converters/DateConverter.spec.js:27-28 | For any date whose fields fit, parsing its rendering gives the date with the omitted components at their epoch values (a time of day is dropped under `MM/dd/yyyy`), or a parse error quoting the text when that is no calendar date. |
| `DateConverter.ParsedRendersBack` | src/converters/DateConverter.spec.js:27-39 | A date a successful parse returns renders back to the parsed text and has its omitted components at their epoch values, so it is the only date the text can denote; a text no valid date renders as, like `02/30/2001` under `MM/dd/yyyy`, is an error. This holds when no field symbol repeats and a two-digit year keeps its last two digits. |
| `DateConverter.ScanKeeps` | src/converters/DateConverter.spec.js:27-28 | Scanning never changes a component whose symbol the pattern does not mention. |
| `DateConverterExamples.RendersMonthDayYear` | src/converters/DateConverter.spec.js:19-25 | `MM/dd/yyyy` renders 2001-01-15 as `01/15/2001`. |
| `DateConverterExamples.ScansMonthDayYear` | src/converters/DateConverter.spec.js:27-28 | Scanning `01/15/2001` under `MM/dd/yyyy` gives 2001-01-15. |
| `DateConverterExamples.RendersTwoDigitYear` | src/converters/DateConverter.spec.js:30-31 | `dd/MM/yy` renders 2001-01-15 as `15/01/01`. |
| `DateConverterExamples.RejectsLetters` | src/converters/DateConverter.spec.js:33-35 | `aaaa` under `dd/MM/yy` is a parse error carrying `aaaa`. |
| `DateConverterExamples.RejectsMissingLiterals` | src/converters/DateConverter.spec.js:37-39 | `11111` under `dd/MM/yy` is a parse error carrying `11111`. |
| `Results.ParseError.Message` | src/converters/DateConverter.spec.js:33-39 | The message is `invalid parsed value [`, then the whole input, then `]`. |
| `Results.MessageNamesInput` | src/converters/DateConverter.spec.js:33-39 | Different inputs give different messages, so the input can be read back from the message. |
| `DateConverterExamples.RejectionMessages` | src/converters/DateConverter.spec.js:33-39 | The two errors read `invalid parsed value [aaaa]` and `invalid parsed value [11111]`. |
| `I18nManager.Language` | src/utils/I18nManager.converters.spec.js:205-219 | The language subtag is the longest prefix of the tag without `-`, and it ends where the tag ends or at a `-`. |
| `I18nManager.FirstHit` | src/utils/I18nManager.converters.spec.js:180-236 | The result is the entry of the first key present in the table, or the fallback value when no key is present. |
| `I18nManager.FindFormattingInfo` | src/utils/I18nManager.converters.spec.js:180-236 | The result is the exact locale's entry if present; else the language subtag's; else the fallback locale's; else the default record. It is always a stored entry or the default record itself. |
| `I18nManagerExamples.EmptyTableGivesDefaults` | src/utils/I18nManager.converters.spec.js:181-188 | `fr-FR` with an empty table resolves to the default record. |
| `I18nManagerExamples.FallbackLocaleWins` | src/utils/I18nManager.converters.spec.js:190-203 | `fr-FR` with only `de` present resolves to the `de` record as stored, partial as it is. |
| `I18nManagerExamples.LanguageBeatsFallback` | src/utils/I18nManager.converters.spec.js:205-219 | `fr-FR` with `fr` and `de` present resolves to `fr`, not to the fallback `de`. |
| `I18nManagerExamples.ExactLocaleWins` | src/utils/I18nManager.converters.spec.js:221-236 | `fr-FR` with `fr-FR`, `fr` and `de` present resolves to `fr-FR`. |
| `I18nManager.DateFormat` | src/utils/I18nManager.converters.spec.js:155-178 | `dateFormat` is the date pattern, verbatim, of the record found by the same search as the converters: the exact locale's, else the language subtag's, else the fallback locale's; it is the default date pattern when none of them is in the table, the empty table included. |
| `I18nManagerExamples.ConfiguredDateFormat` | src/utils/I18nManager.converters.spec.js:155-172 | `es` configured with `YY` reports `YY`. |
| `I18nManagerExamples.DefaultDateFormat` | src/utils/I18nManager.converters.spec.js:174-178 | `en` without a table reports the default date pattern. |
| `I18nManager.PartialRecordIsNotMerged` | src/utils/I18nManager.converters.spec.js:190-203 | When neither the locale nor its language subtag has a record and the fallback locale's record sets only a date pattern, that record is the one resolved, unchanged, and `dateFormat` reports its pattern. The converters fill its absent fields one by one: the date-time, integer and number patterns and both separator characters come from the default record, and both switches are off. |
| `I18nManager.EmptyTableUsesDefaults` | src/utils/I18nManager.converters.spec.js:174-188 | With an empty table, every converter is built from the default record alone. |
| `I18nManager.DateConverterOf` | src/utils/I18nManager.converters.spec.js:47-54 | The date converter uses the resolved date pattern when it is present and non-empty, and the default date pattern otherwise. |
| `I18nManager.DateTimeConverterOf` | src/utils/I18nManager.converters.spec.js:56-60 | The date-time converter likewise uses the resolved date-time pattern or the default one. |
| `I18nManager.SeparatorsOf` | src/utils/I18nManager.converters.spec.js:73-113 | Each separator character is the record's when it sets one and the default record's otherwise. Grouping is used, and the decimal separator always shown, exactly when the record sets that switch to true. |
| `I18nManager.IntegerConverterOf` | src/utils/I18nManager.converters.spec.js:62-64 | The integer converter uses the resolved record's integer pattern, or the default one when the record has none, with the resolved separators. |
| `I18nManager.DecimalConverterOf` | src/utils/I18nManager.converters.spec.js:66-70 | The decimal converter uses the resolved record's number pattern, or the default one when the record has none, with the resolved separators. |
| `I18nManager.FormatDate` | src/utils/I18nManager.converters.spec.js:47-50 | An absent date formats as `""`. A fitting date formats with the resolved pattern's layout. |
| `I18nManager.ParseDate` | src/utils/I18nManager.converters.spec.js:52-53 | Empty input gives no date. Errors quote the input. Successes are valid dates read from text with the resolved pattern's layout. |
| `I18nManager.FormatDateTime` | src/utils/I18nManager.converters.spec.js:56-60 | An absent date formats as `""`. A fitting date formats with the date-time pattern's layout. |
| `I18nManager.DateRoundTrip` | src/utils/I18nManager.converters.spec.js:47-54 | `parseDate(formatDate(d))` returns `d` under the round-trip conditions of `DateConverter.RoundTrip`. |
| `I18nManager.DateRoundTripOnPattern` | src/utils/I18nManager.converters.spec.js:47-54 | `parseDate(formatDate(d))`, for any date whose fields fit the resolved pattern, returns `d` with the components that pattern omits at their epoch values, or a parse error when that is no calendar date. |
| `I18nManager.ParsedDateFormatsBack` | src/utils/I18nManager.converters.spec.js:52-53 | A date `parseDate` returns formats back to the parsed text, when no field symbol repeats in the resolved pattern and a two-digit year keeps its last two digits. |
| `I18nManagerExamples.FormatsDate` | src/utils/I18nManager.converters.spec.js:47-50 | `en-US` formats 2001-01-10 as `10/01/2001`. |
| `I18nManagerExamples.ParsesDate` | src/utils/I18nManager.converters.spec.js:52-53 | `en-US` parses `10/01/2001` back to 2001-01-10. |
| `I18nManagerExamples.FormatsDateTime` | src/utils/I18nManager.converters.spec.js:56-60 | `en-US` formats 2001-01-10 at midnight as `10/01/2001 00:00:00`. |
| `NumberConverter.ReadPattern` | src/utils/I18nManager.converters.spec.js:62-71 | Mandatory fraction digits never exceed the maximum. A pattern without `.` has no fraction digits. Grouping is on exactly when `,` occurs before the first `.`. |
| `NumberConverter.ReadIntegerTemplate` | src/utils/I18nManager.converters.spec.js:62-64 | A pattern without a point, like `#,##0`, prescribes its count of `0`s as the minimum integer digits, grouping exactly when it holds a `,`, and no fraction digit. |
| `NumberConverter.ReadTemplates` | src/utils/I18nManager.converters.spec.js:66-70 | A pattern `integer.fraction`, like `#,##0.00#######`, prescribes the `0`s before the point as the minimum integer digits, grouping exactly when a `,` stands before it, the `0`s after it as the mandatory fraction digits and the `0`s and `#`s after it as the maximum. |
| `NumberConverter.ReadWritePattern` | src/utils/I18nManager.converters.spec.js:62-71 | Every setting a pattern can prescribe is prescribed by some pattern: reading the plainest pattern written for it gives it back. |
| `NumberConverter.GroupInverse` | src/utils/I18nManager.converters.spec.js:62-64 | Dropping the separators from a grouped digit string gives the digits back. Separators stand exactly every four places from the right, and the leading group has one to three digits, so digits come in threes. |
| `NumberConverterExamples.LeadingGroupOfFour` | src/utils/I18nManager.converters.spec.js:62-64 | Grouping in threes accepts `1,000` and rejects `1000` and `1234,567`, whose leading groups have four digits. |
| `NumberConverter.IntegerPart` | src/utils/I18nManager.converters.spec.js:62-70 | Without its separators, the integer text is the digits of the whole part, zero-padded to the minimum count. It is grouped in threes when the pattern and locale ask for it, and is plain digits otherwise. |
| `NumberConverter.Round` | src/utils/I18nManager.converters.spec.js:66-70 | Rounding keeps at most `k` fraction digits and changes nothing that already fits. Scaled by ten to the `k`, the result is the truncation plus one exactly when the first dropped digit is 5 or more. |
| `NumberConverter.ShownFraction` | src/utils/I18nManager.converters.spec.js:66-70 | The shown fraction has between the mandatory and the maximum count of digits and differs from the value's fraction only in trailing zeros. An optional digit is shown only when it is not a trailing zero, so `10000` under `#,##0.00#######` shows exactly two fraction digits. |
| `NumberConverter.FractionPart` | src/utils/I18nManager.converters.spec.js:73-153 | The fraction text is empty exactly when no digit is shown and the separator is not always shown. Otherwise it is the decimal separator followed by the shown digits. |
| `NumberConverter.RenderLayout` | src/utils/I18nManager.converters.spec.js:62-71 | A rendering ends in the fraction part of the rounded number. Before it stands the integer text, grouped in threes when both the pattern and the locale ask for it, and plain digits otherwise. |
| `NumberConverter.RenderPlainText` | src/utils/I18nManager.converters.spec.js:62-71 | With grouping separators dropped and the decimal separator read as a point, a rendering is the rounded whole part's digits padded to the minimum count, then a point and the shown fraction digits when a digit is shown or the separator is always shown. |
| `NumberConverter.ValueToString` | src/utils/I18nManager.converters.spec.js:62-71 | An absent number renders as `""`. A present one renders non-empty, as the integer part of the number rounded to the pattern's maximum fraction digits followed by the fraction part of its shown fraction. |
| `NumberConverter.ReadDecimal` | src/utils/I18nManager.converters.spec.js:62-67 | A text is read exactly when it is a numeral: digits with at most one `.` and at least one digit. A numeral without a point denotes its digits' value with no fraction. |
| `NumberConverter.ReadPointed` | src/utils/I18nManager.converters.spec.js:66-67 | `a.b` over digits denotes the value of `a` with `b`, less trailing zeros, as fraction; a lone point denotes nothing. |
| `NumberConverter.StringToValue` | src/utils/I18nManager.converters.spec.js:62-67 | Absent or empty text gives no number. Any other text parses exactly when, with grouping separators dropped and the decimal separator read as a point, it is a numeral; otherwise the error quotes the whole text. A parsed number is in canonical form, with no trailing fraction zeros. |
| `NumberConverter.ParsesWholeNumeral` | src/utils/I18nManager.converters.spec.js:62-64 | A text whose plain form is the digits `a` parses to the value of `a`. |
| `NumberConverter.ParsesPointedNumeral` | src/utils/I18nManager.converters.spec.js:66-67 | A text whose plain form is `a.b` over digits parses to the value of `a` with fraction `b` less trailing zeros. |
| `NumberConverter.ParseReadsSeparatorsOnly` | src/utils/I18nManager.converters.spec.js:112-113 | Parsing depends only on the two separator characters, not on the pattern or the switches. |
| `NumberConverter.ReadsRendering` | src/utils/I18nManager.converters.spec.js:62-67 | With grouping separators dropped and the decimal separator read as a point, a rendering reads as the rounded number in canonical form. |
| `NumberConverter.RoundTripRounded` | src/utils/I18nManager.converters.spec.js:62-67 | When the two separators differ from each other and from the digits, parsing any rendered number gives the number rounded to the pattern's fraction digits, in canonical form. |
| `NumberConverter.RoundTrip` | src/utils/I18nManager.converters.spec.js:62-67 | With separators that differ from each other and from the digits, a canonical number with no more fraction digits than the pattern allows is parsed back unchanged. |
| `I18nManager.FormatNumber` | src/utils/I18nManager.converters.spec.js:62-63 | `formatNumber` gives `""` exactly for an absent number, and renders a present one with the resolved integer pattern and separators. |
| `I18nManager.ParseNumber` | src/utils/I18nManager.converters.spec.js:62-64 | `parseNumber` gives no number for empty input. Other input parses exactly when its plain form under the resolved separators is a numeral, and its errors quote the input. |
| `I18nManager.FormatDecimalNumber` | src/utils/I18nManager.converters.spec.js:66-70 | `formatDecimalNumber` gives `""` exactly for an absent number, and renders a present one with the resolved number pattern and separators. |
| `I18nManager.ParseDecimalNumber` | src/utils/I18nManager.converters.spec.js:66-67 | `parseDecimalNumber` gives no number for empty input. Other input parses exactly when its plain form under the resolved separators is a numeral, and its errors quote the input. |
| `I18nManager.NumberRoundTrip` | src/utils/I18nManager.converters.spec.js:62-64 | When the resolved separators differ from each other and from the digits, `parseNumber(formatNumber(v))` is `v` rounded to the integer pattern, in canonical form. |
| `I18nManager.DecimalNumberRoundTrip` | src/utils/I18nManager.converters.spec.js:66-67 | When the resolved separators differ from each other and from the digits, `parseDecimalNumber(formatDecimalNumber(v))` is `v` rounded to the number pattern, in canonical form. |
| `I18nManagerExamples.FormatsNumber` | src/utils/I18nManager.converters.spec.js:62-64 | `#,##0` formats 10000 as `10,000`, which parses back to 10000. |
| `I18nManagerExamples.FormatsDecimalNumber` | src/utils/I18nManager.converters.spec.js:66-67 | `#,##0.00#######` formats 10000 as `10,000.00`, which parses back to 10000. |
| `I18nManagerExamples.FormatsLargeDecimal` | src/utils/I18nManager.converters.spec.js:69 | 123456789.12 formats as `123,456,789.12`. |
| `I18nManagerExamples.FormatsOtherLargeDecimal` | src/utils/I18nManager.converters.spec.js:70 | 55454545.12 formats as `55,454,545.12`. |
| `I18nManagerExamples.FormatsNumberWithLoneSeparator` | src/utils/I18nManager.converters.spec.js:73-113 | With the separator always shown, `formatNumber` (the integer pattern `#,##0`, no fraction digits) formats 10000 as `10,000.`, and `10,000` still parses to 10000. |
| `I18nManagerExamples.FormatsNumberWithFixedFraction` | src/utils/I18nManager.converters.spec.js:116-152 | With the separator always shown, `#,##0.00` formats 10000 as `10,000.00`, which parses back to 10000. |

## Left out

- Message bundles are not modelled: their registration (both bundle shapes), nested key lookup and `{name}` placeholders. The tests only chain `register` calls and check no lookup result.
- The positional (legacy) constructor of the manager is not modelled. It is object-shape plumbing and builds the same state as the options object.
- JavaScript `Date` is not modelled: time zones, month indices from 0, and comparison through `toString`. A date is a record of naturals with the month from 1.
- Floating point is not modelled. Numbers are non-negative fixed-point values, and rounding beyond the pattern's fraction digits is half-up on the exact decimal value. Negative numbers are out of scope.
- Separators are single characters.
- The default record's contents are a parameter (`Manager.defaults`), because the constants file is not part of this model.
- The century rule for a scanned two-digit year is a parameter (`expandYear`). No test parses a `yy` value.
- I18nManager.SeparatorsOf: how a converter fills an absent field of the resolved record is a modelling choice no test settles. Absent patterns and separator characters come from the default record, and absent switches are off.
- NumberConverter.StringToValue: the numeral grammar is `digits[.digits]`, so a sign, an exponent and surrounding whitespace are rejected, where a floating-point parse would accept them.
- DateConverter.ValueToString: a date whose field does not fit its width (a five-digit year under `yyyy`) renders with the longer field. The contract states the layout only for fitting dates.
