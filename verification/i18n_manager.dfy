/** The formatting side of the i18n manager: it resolves the formatting
    record of the active locale from a flat table keyed by locale tag, and
    builds date and number converters from the resolved record.

    Resolution tries, in order, the exact active locale, its language subtag
    (the text before the first `-`), the exact fallback locale, and finally
    the process-wide default record. The first entry found is returned as
    stored; nothing is merged.
 */
module I18nManager {
  import opened Results
  import opened Strings
  import DateConverter
  import NumberConverter

  /** A locale's formatting record as stored in the table: any field may be absent. */
  datatype FormattingInfo = FormattingInfo(
    datePattern: Option<string>,
    dateTimePattern: Option<string>,
    integerPattern: Option<string>,
    numberPattern: Option<string>,
    numberDecimalSeparator: Option<char>,
    numberGroupingSeparator: Option<char>,
    numberGroupingSeparatorUse: Option<bool>,
    numberDecimalSeparatorUseAlways: Option<bool>)

  /** A formatting record with every field present, such as the default record. */
  datatype CompleteInfo = CompleteInfo(
    datePattern: string,
    dateTimePattern: string,
    integerPattern: string,
    numberPattern: string,
    numberDecimalSeparator: char,
    numberGroupingSeparator: char,
    numberGroupingSeparatorUse: bool,
    numberDecimalSeparatorUseAlways: bool)

  /** The table form of a complete record. */
  function Stored(c: CompleteInfo): FormattingInfo {
    FormattingInfo(Some(c.datePattern), Some(c.dateTimePattern), Some(c.integerPattern), Some(c.numberPattern),
                   Some(c.numberDecimalSeparator), Some(c.numberGroupingSeparator),
                   Some(c.numberGroupingSeparatorUse), Some(c.numberDecimalSeparatorUseAlways))
  }

  /** The manager's formatting state: the active locale, the optional
      fallback locale, the per-locale table and the default record. */
  datatype Manager = Manager(
    locale: string,
    fallbackLocale: Option<string>,
    table: map<string, FormattingInfo>,
    defaults: CompleteInfo)

  /** The language subtag of a locale tag: the text before the first `-`, or
      the whole tag when it has none. */
  function Language(tag: string): (r: string)
    ensures |r| <= |tag| && r == tag[..|r|]
    ensures '-' !in r
    ensures |r| == |tag| || tag[|r|] == '-'
  {
    tag[..IndexOf(tag, '-')]
  }

  /** The locale tags resolution tries, most specific first. */
  function Candidates(m: Manager): seq<string> {
    [m.locale, Language(m.locale)] + (if m.fallbackLocale.Some? then [m.fallbackLocale.value] else [])
  }

  /** The entry of the first key present in the table, or `otherwise`. */
  function FirstHit(table: map<string, FormattingInfo>, keys: seq<string>, otherwise: FormattingInfo): (r: FormattingInfo)
    ensures (forall i :: 0 <= i < |keys| ==> keys[i] !in table) ==> r == otherwise
    ensures forall i :: 0 <= i < |keys| && keys[i] in table && (forall j :: 0 <= j < i ==> keys[j] !in table) ==>
      r == table[keys[i]]
  {
    if |keys| == 0 then otherwise
    else if keys[0] in table then table[keys[0]]
    else
      var r := FirstHit(table, keys[1..], otherwise);
      assert forall i :: 1 <= i < |keys| ==> keys[i] == keys[1..][i - 1];
      r
  }

  /** The formatting record of the active locale (`_findFormattingInfo`). */
  function FindFormattingInfo(m: Manager): (r: FormattingInfo)
    ensures m.locale in m.table ==> r == m.table[m.locale]
    ensures m.locale !in m.table && Language(m.locale) in m.table ==> r == m.table[Language(m.locale)]
    ensures m.locale !in m.table && Language(m.locale) !in m.table &&
            m.fallbackLocale.Some? && m.fallbackLocale.value in m.table ==>
              r == m.table[m.fallbackLocale.value]
    ensures m.locale !in m.table && Language(m.locale) !in m.table &&
            (m.fallbackLocale.None? || m.fallbackLocale.value !in m.table) ==>
              r == Stored(m.defaults)
    ensures r in m.table.Values || r == Stored(m.defaults)
  {
    var keys := Candidates(m);
    assert keys[0] == m.locale && keys[1] == Language(m.locale);
    assert m.fallbackLocale.Some? ==> keys[2] == m.fallbackLocale.value;
    FirstHit(m.table, keys, Stored(m.defaults))
  }

  /** The resolved date pattern (`dateFormat`), absent when the resolved record has none. */
  function DateFormat(m: Manager): (r: Option<string>)
    ensures m.table == map[] ==> r == Some(m.defaults.datePattern)
    ensures m.locale in m.table ==> r == m.table[m.locale].datePattern
    ensures m.locale !in m.table && Language(m.locale) in m.table ==> r == m.table[Language(m.locale)].datePattern
    ensures m.locale !in m.table && Language(m.locale) !in m.table &&
            m.fallbackLocale.Some? && m.fallbackLocale.value in m.table ==>
              r == m.table[m.fallbackLocale.value].datePattern
    ensures m.locale !in m.table && Language(m.locale) !in m.table &&
            (m.fallbackLocale.None? || m.fallbackLocale.value !in m.table) ==>
              r == Some(m.defaults.datePattern)
  {
    FindFormattingInfo(m).datePattern
  }

  // ---------------------------------------------------------------------------
  // Converters built from the resolved record

  /** The number settings of a record: absent separators come from the
      default record, absent switches are off. */
  function SeparatorsOf(info: FormattingInfo, defaults: CompleteInfo): (r: NumberConverter.Separators)
    ensures info.numberDecimalSeparator.Some? ==> r.decimal == info.numberDecimalSeparator.value
    ensures info.numberDecimalSeparator.None? ==> r.decimal == defaults.numberDecimalSeparator
    ensures info.numberGroupingSeparator.Some? ==> r.grouping == info.numberGroupingSeparator.value
    ensures info.numberGroupingSeparator.None? ==> r.grouping == defaults.numberGroupingSeparator
    ensures r.useGrouping <==> info.numberGroupingSeparatorUse == Some(true)
    ensures r.alwaysShowDecimal <==> info.numberDecimalSeparatorUseAlways == Some(true)
  {
    NumberConverter.Separators(
      info.numberDecimalSeparator.GetOr(defaults.numberDecimalSeparator),
      info.numberGroupingSeparator.GetOr(defaults.numberGroupingSeparator),
      info.numberGroupingSeparatorUse.GetOr(false),
      info.numberDecimalSeparatorUseAlways.GetOr(false))
  }

  /** The date converter takes the resolved date pattern when it is present
      and non-empty, and the default date pattern otherwise. */
  function DateConverterOf(m: Manager): (c: DateConverter.Converter)
    ensures DateFormat(m).Some? && DateFormat(m).value != "" ==> c.pattern == DateFormat(m).value
    ensures DateFormat(m).None? || DateFormat(m).value == "" ==> c.pattern == m.defaults.datePattern
  {
    DateConverter.Create(FindFormattingInfo(m).datePattern, m.defaults.datePattern)
  }

  /** The date-and-time converter, likewise from the date-and-time pattern. */
  function DateTimeConverterOf(m: Manager): (c: DateConverter.Converter)
    ensures var p := FindFormattingInfo(m).dateTimePattern;
      c.pattern == if p.Some? && p.value != "" then p.value else m.defaults.dateTimePattern
  {
    DateConverter.Create(FindFormattingInfo(m).dateTimePattern, m.defaults.dateTimePattern)
  }

  /** `formatNumber` and `parseNumber` use the integer pattern: the resolved
      record's, or the default one when the record has none. */
  function IntegerConverterOf(m: Manager): (c: NumberConverter.Converter)
    ensures var info := FindFormattingInfo(m);
      && (info.integerPattern.Some? ==> c.pattern == info.integerPattern.value)
      && (info.integerPattern.None? ==> c.pattern == m.defaults.integerPattern)
      && c.separators == SeparatorsOf(info, m.defaults)
  {
    var info := FindFormattingInfo(m);
    NumberConverter.Converter(info.integerPattern.GetOr(m.defaults.integerPattern), SeparatorsOf(info, m.defaults))
  }

  /** `formatDecimalNumber` and `parseDecimalNumber` use the number pattern:
      the resolved record's, or the default one when the record has none. */
  function DecimalConverterOf(m: Manager): (c: NumberConverter.Converter)
    ensures var info := FindFormattingInfo(m);
      && (info.numberPattern.Some? ==> c.pattern == info.numberPattern.value)
      && (info.numberPattern.None? ==> c.pattern == m.defaults.numberPattern)
      && c.separators == SeparatorsOf(info, m.defaults)
  {
    var info := FindFormattingInfo(m);
    NumberConverter.Converter(info.numberPattern.GetOr(m.defaults.numberPattern), SeparatorsOf(info, m.defaults))
  }

  /** With an empty table every converter is built from the default record alone. */
  lemma EmptyTableUsesDefaults(m: Manager)
    requires m.table == map[]
    ensures DateConverterOf(m).pattern == m.defaults.datePattern
    ensures DateTimeConverterOf(m).pattern == m.defaults.dateTimePattern
    ensures IntegerConverterOf(m) == NumberConverter.Converter(m.defaults.integerPattern, DefaultSeparators(m.defaults))
    ensures DecimalConverterOf(m) == NumberConverter.Converter(m.defaults.numberPattern, DefaultSeparators(m.defaults))
  {
  }

  /** The separator configuration of the default record. */
  function DefaultSeparators(d: CompleteInfo): NumberConverter.Separators {
    NumberConverter.Separators(d.numberDecimalSeparator, d.numberGroupingSeparator,
                               d.numberGroupingSeparatorUse, d.numberDecimalSeparatorUseAlways)
  }

  /** A fallback record that sets only its date pattern is the record
      resolved, as stored. `dateFormat` reports its pattern; the converters
      fill each absent field on its own: patterns and separator characters
      from the default record, both switches off. */
  lemma PartialRecordIsNotMerged(m: Manager, datePattern: string)
    requires m.locale !in m.table && Language(m.locale) !in m.table
    requires m.fallbackLocale.Some? && m.fallbackLocale.value in m.table
    requires m.table[m.fallbackLocale.value] == FormattingInfo(Some(datePattern), None, None, None, None, None, None, None)
    ensures FindFormattingInfo(m) == FormattingInfo(Some(datePattern), None, None, None, None, None, None, None)
    ensures DateFormat(m) == Some(datePattern)
    ensures DateTimeConverterOf(m).pattern == m.defaults.dateTimePattern
    ensures IntegerConverterOf(m) == NumberConverter.Converter(m.defaults.integerPattern,
      NumberConverter.Separators(m.defaults.numberDecimalSeparator, m.defaults.numberGroupingSeparator, false, false))
    ensures DecimalConverterOf(m).pattern == m.defaults.numberPattern
  {
  }

  // ---------------------------------------------------------------------------
  // Formatting and parsing through the resolved converters

  function FormatDate(m: Manager, v: Option<DateConverter.Date>): (r: string)
    ensures v.None? ==> r == ""
    ensures v.Some? && DateConverter.Fits(DateConverter.Tokens(DateConverterOf(m)), v.value) ==>
      DateConverter.Shaped(r, DateConverterOf(m).pattern)
  {
    DateConverter.ValueToString(DateConverterOf(m), v)
  }

  function ParseDate(m: Manager, text: Option<string>, expandYear: nat -> nat): (r: Result<Option<DateConverter.Date>>)
    ensures text.None? || text.value == "" ==> r == Ok(None)
    ensures r.Err? ==> text.Some? && r.error == ParseError(text.value)
    ensures text.Some? && text.value != "" && r.Ok? ==>
      r.value.Some? && DateConverter.ValidDate(r.value.value) && DateConverter.Shaped(text.value, DateConverterOf(m).pattern)
  {
    DateConverter.StringToValue(DateConverterOf(m), text, expandYear)
  }

  function FormatDateTime(m: Manager, v: Option<DateConverter.Date>): (r: string)
    ensures v.None? ==> r == ""
    ensures v.Some? && DateConverter.Fits(DateConverter.Tokens(DateTimeConverterOf(m)), v.value) ==>
      DateConverter.Shaped(r, DateTimeConverterOf(m).pattern)
  {
    DateConverter.ValueToString(DateTimeConverterOf(m), v)
  }

  function FormatNumber(m: Manager, v: Option<NumberConverter.Decimal>): (r: string)
    ensures v.None? <==> r == ""
    ensures v.Some? ==> var c := IntegerConverterOf(m);
      r == NumberConverter.Render(v.value, NumberConverter.ReadPattern(c.pattern), c.separators)
  {
    NumberConverter.ValueToString(IntegerConverterOf(m), v)
  }

  function ParseNumber(m: Manager, text: Option<string>): (r: Result<Option<NumberConverter.Decimal>>)
    ensures text.None? || text.value == "" ==> r == Ok(None)
    ensures r.Err? ==> text.Some? && r.error == ParseError(text.value)
    ensures text.Some? && text.value != "" ==>
      (r.Ok? <==> NumberConverter.IsNumeral(NumberConverter.PlainText(IntegerConverterOf(m).separators, text.value)))
  {
    NumberConverter.StringToValue(IntegerConverterOf(m), text)
  }

  function FormatDecimalNumber(m: Manager, v: Option<NumberConverter.Decimal>): (r: string)
    ensures v.None? <==> r == ""
    ensures v.Some? ==> var c := DecimalConverterOf(m);
      r == NumberConverter.Render(v.value, NumberConverter.ReadPattern(c.pattern), c.separators)
  {
    NumberConverter.ValueToString(DecimalConverterOf(m), v)
  }

  function ParseDecimalNumber(m: Manager, text: Option<string>): (r: Result<Option<NumberConverter.Decimal>>)
    ensures text.None? || text.value == "" ==> r == Ok(None)
    ensures r.Err? ==> text.Some? && r.error == ParseError(text.value)
    ensures text.Some? && text.value != "" ==>
      (r.Ok? <==> NumberConverter.IsNumeral(NumberConverter.PlainText(DecimalConverterOf(m).separators, text.value)))
  {
    NumberConverter.StringToValue(DecimalConverterOf(m), text)
  }

  // ---------------------------------------------------------------------------
  // Round trips through the manager

  /** A date the resolved date pattern can show is parsed back from its rendering. */
  lemma DateRoundTrip(m: Manager, d: DateConverter.Date, expandYear: nat -> nat)
    requires DateConverter.ValidDate(d) && DateConverterOf(m).pattern != ""
    requires DateConverter.Fits(DateConverter.Tokens(DateConverterOf(m)), d)
    requires DateConverter.AgreesOffPattern(DateConverter.Tokens(DateConverterOf(m)), d, DateConverter.Epoch)
    requires DateConverter.HasTwoDigitYear(DateConverter.Tokens(DateConverterOf(m))) ==> expandYear(d.year % 100) == d.year
    ensures ParseDate(m, Some(FormatDate(m, Some(d))), expandYear) == Ok(Some(d))
  {
    DateConverter.RoundTrip(DateConverterOf(m), d, expandYear);
  }

  /** Formatting any date whose fields fit and parsing the text gives the
      date with the components the resolved pattern omits at their epoch
      values (a time of day is dropped under a date-only pattern), or a parse
      error when that is no calendar date. */
  lemma DateRoundTripOnPattern(m: Manager, d: DateConverter.Date, expandYear: nat -> nat)
    requires DateConverterOf(m).pattern != ""
    requires DateConverter.Fits(DateConverter.Tokens(DateConverterOf(m)), d)
    requires DateConverter.HasTwoDigitYear(DateConverter.Tokens(DateConverterOf(m))) ==> expandYear(d.year % 100) == d.year
    ensures var e := DateConverter.OnPattern(DateConverter.Tokens(DateConverterOf(m)), d);
      ParseDate(m, Some(FormatDate(m, Some(d))), expandYear)
        == if DateConverter.ValidDate(e) then Ok(Some(e)) else Err(ParseError(FormatDate(m, Some(d))))
  {
    DateConverter.RoundTripOnPattern(DateConverterOf(m), d, expandYear);
  }

  /** A date `parseDate` returns formats back to the parsed text, when no
      field symbol repeats in the resolved pattern and a two-digit year keeps
      its last two digits. */
  lemma ParsedDateFormatsBack(m: Manager, text: string, expandYear: nat -> nat, d: DateConverter.Date)
    requires DateConverter.Unrepeated(DateConverter.Tokens(DateConverterOf(m)))
    requires DateConverter.HasTwoDigitYear(DateConverter.Tokens(DateConverterOf(m))) ==>
      forall v :: v < 100 ==> expandYear(v) % 100 == v
    requires ParseDate(m, Some(text), expandYear) == Ok(Some(d))
    ensures FormatDate(m, Some(d)) == text
  {
    DateConverter.ParsedRendersBack(DateConverterOf(m), text, expandYear, d);
  }

  /** Parsing a number the integer converter rendered gives it back rounded to the integer pattern. */
  lemma NumberRoundTrip(m: Manager, v: NumberConverter.Decimal)
    requires NumberConverter.Distinct(SeparatorsOf(FindFormattingInfo(m), m.defaults))
    ensures ParseNumber(m, Some(FormatNumber(m, Some(v))))
         == Ok(Some(NumberConverter.Normalize(NumberConverter.Round(v, NumberConverter.ReadPattern(IntegerConverterOf(m).pattern).maxFrac))))
  {
    NumberConverter.RoundTripRounded(IntegerConverterOf(m), v);
  }

  /** Parsing a number the decimal converter rendered gives it back rounded to the number pattern. */
  lemma DecimalNumberRoundTrip(m: Manager, v: NumberConverter.Decimal)
    requires NumberConverter.Distinct(SeparatorsOf(FindFormattingInfo(m), m.defaults))
    ensures ParseDecimalNumber(m, Some(FormatDecimalNumber(m, Some(v))))
         == Ok(Some(NumberConverter.Normalize(NumberConverter.Round(v, NumberConverter.ReadPattern(DecimalConverterOf(m).pattern).maxFrac))))
  {
    NumberConverter.RoundTripRounded(DecimalConverterOf(m), v);
  }
}
