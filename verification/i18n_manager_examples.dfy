/** The manager's documented formatting cases, each stated for the concrete
    locales, tables and values the repository's tests use. As with the
    converter cases, concrete values are parameters fixed by `requires`. */
module I18nManagerExamples {
  import opened Results
  import opened Strings
  import opened PatternTokenizer
  import opened I18nManager
  import DateConverter
  import DateConverterExamples
  import NumberConverter
  import NumberConverterExamples

  // ---------------------------------------------------------------------------
  // Resolution

  lemma LanguageOfFrFr(tag: string)
    requires tag == "fr-FR"
    ensures Language(tag) == "fr"
  {
    var i := IndexOf(tag, '-');
    assert tag[2] == '-' && tag[0] != '-' && tag[1] != '-';
    assert i == 2;
    assert tag[..2] == "fr";
  }

  /** With no entry at all, `fr-FR` resolves to the default record. */
  lemma EmptyTableGivesDefaults(m: Manager)
    requires m.locale == "fr-FR" && m.fallbackLocale == None && m.table == map[]
    ensures FindFormattingInfo(m) == Stored(m.defaults)
  {
  }

  /** Neither `fr-FR` nor `fr` has an entry, so the fallback locale's partial record is returned as stored. */
  lemma FallbackLocaleWins(m: Manager, de: FormattingInfo)
    requires m.locale == "fr-FR" && m.fallbackLocale == Some("de") && m.table == map["de" := de]
    ensures FindFormattingInfo(m) == de
  {
    LanguageOfFrFr(m.locale);
  }

  /** The language subtag `fr` is tried before the fallback locale `de`. */
  lemma LanguageBeatsFallback(m: Manager, fr: FormattingInfo, de: FormattingInfo)
    requires m.locale == "fr-FR" && m.fallbackLocale == Some("de")
    requires m.table == map["fr" := fr, "de" := de]
    ensures FindFormattingInfo(m) == fr
  {
    LanguageOfFrFr(m.locale);
  }

  /** The exact locale is tried first. */
  lemma ExactLocaleWins(m: Manager, frFr: FormattingInfo, fr: FormattingInfo, de: FormattingInfo)
    requires m.locale == "fr-FR" && m.fallbackLocale == Some("de")
    requires m.table == map["fr-FR" := frFr, "fr" := fr, "de" := de]
    ensures FindFormattingInfo(m) == frFr
  {
  }

  // ---------------------------------------------------------------------------
  // The configured date pattern

  /** A locale with an entry reports that entry's date pattern, even one the date converter cannot use. */
  lemma ConfiguredDateFormat(m: Manager, es: FormattingInfo)
    requires m.locale == "es" && m.table == map["es" := es] && es.datePattern == Some("YY")
    ensures DateFormat(m) == Some("YY")
  {
  }

  /** A locale without any table reports the default date pattern. */
  lemma DefaultDateFormat(m: Manager)
    requires m.locale == "en" && m.table == map[]
    ensures DateFormat(m) == Some(m.defaults.datePattern)
  {
  }

  // ---------------------------------------------------------------------------
  // The `en-US` record of the tests

  /** The tests' `en-US` record, with its integer pattern and decimal-separator switch varying. */
  function EnUs(integerPattern: string, useAlways: Option<bool>): FormattingInfo {
    FormattingInfo(Some("dd/MM/yyyy"), Some("dd/MM/yyyy HH:mm:ss"), Some(integerPattern), Some("#,##0.00#######"),
                   Some('.'), Some(','), Some(true), useAlways)
  }

  /** A manager for `en-US` whose table holds just that record. */
  predicate EnUsManager(m: Manager, integerPattern: string, useAlways: Option<bool>) {
    m.locale == "en-US" && m.table == map["en-US" := EnUs(integerPattern, useAlways)]
  }

  lemma EnUsConverters(m: Manager, integerPattern: string, useAlways: Option<bool>)
    requires EnUsManager(m, integerPattern, useAlways)
    ensures DateConverterOf(m).pattern == "dd/MM/yyyy"
    ensures DateTimeConverterOf(m).pattern == "dd/MM/yyyy" + " HH:mm:ss"
  {
  }

  // ---------------------------------------------------------------------------
  // Dates

  /** The fields of 2001-01-10 00:00:00 as `dd/MM/yyyy HH:mm:ss` shows them. */
  lemma FieldsOfJan10(d: DateConverter.Date)
    requires DateConverterExamples.AtMidnight(d, 2001, 1, 10)
    ensures DateConverter.RenderField(d, 'd', 2) == "10"
    ensures DateConverter.RenderField(d, 'M', 2) == "01"
    ensures DateConverter.RenderField(d, 'y', 4) == "2001"
    ensures DateConverter.RenderField(d, 'H', 2) == "00"
    ensures DateConverter.RenderField(d, 'm', 2) == "00"
    ensures DateConverter.RenderField(d, 's', 2) == "00"
  {
    DateConverterExamples.TwoDigitField(d, 'd', 1, 0);
    DateConverterExamples.TwoDigitField(d, 'M', 0, 1);
    DateConverterExamples.TwoDigitField(d, 'H', 0, 0);
    DateConverterExamples.TwoDigitField(d, 'm', 0, 0);
    DateConverterExamples.TwoDigitField(d, 's', 0, 0);
    DateConverterExamples.FieldsOfJan15(d.(day := 15));
    assert DateConverter.RenderField(d, 'y', 4) == DateConverter.RenderField(d.(day := 15), 'y', 4);
  }

  lemma RenderedDateJan10(d: DateConverter.Date)
    requires DateConverterExamples.AtMidnight(d, 2001, 1, 10)
    ensures DateConverter.Render([Field('d', 2), Literal('/'), Field('M', 2), Literal('/'), Field('y', 4)], d)
         == "10" + ("/" + ("01" + ("/" + "2001")))
  {
    FieldsOfJan10(d);
    DateConverterExamples.RenderThreeFields('d', 2, '/', 'M', 2, 'y', 4, d);
  }

  /** Midnight under `HH:mm:ss`. */
  lemma RenderedMidnight(d: DateConverter.Date)
    requires d.hour == 0 && d.minute == 0 && d.second == 0
    ensures DateConverter.Render([Field('H', 2), Literal(':'), Field('m', 2), Literal(':'), Field('s', 2)], d)
         == "00" + (":" + ("00" + (":" + "00")))
  {
    DateConverterExamples.TwoDigitField(d, 'H', 0, 0);
    DateConverterExamples.TwoDigitField(d, 'm', 0, 0);
    DateConverterExamples.TwoDigitField(d, 's', 0, 0);
    DateConverterExamples.RenderThreeFields('H', 2, ':', 'm', 2, 's', 2, d);
  }

  lemma RenderedTimeJan10(d: DateConverter.Date)
    requires DateConverterExamples.AtMidnight(d, 2001, 1, 10)
    ensures DateConverter.Render([Literal(' '), Field('H', 2), Literal(':'), Field('m', 2), Literal(':'), Field('s', 2)], d)
         == " " + ("00" + (":" + ("00" + (":" + "00"))))
  {
    var clock := [Field('H', 2), Literal(':'), Field('m', 2), Literal(':'), Field('s', 2)];
    assert [Literal(' ')] + clock == [Literal(' '), Field('H', 2), Literal(':'), Field('m', 2), Literal(':'), Field('s', 2)];
    DateConverterExamples.RenderCons(Literal(' '), clock, d);
    RenderedMidnight(d);
  }

  lemma RenderDateJan10(d: DateConverter.Date)
    requires DateConverterExamples.AtMidnight(d, 2001, 1, 10)
    ensures DateConverter.Render([Field('d', 2), Literal('/'), Field('M', 2), Literal('/'), Field('y', 4)], d) == "10/01/2001"
  {
    assert "10" + ("/" + ("01" + ("/" + "2001"))) == "10/01/2001";
    RenderedDateJan10(d);
  }

  lemma RenderTimeJan10(d: DateConverter.Date)
    requires DateConverterExamples.AtMidnight(d, 2001, 1, 10)
    ensures DateConverter.Render([Literal(' '), Field('H', 2), Literal(':'), Field('m', 2), Literal(':'), Field('s', 2)], d) == " 00:00:00"
  {
    assert " " + ("00" + (":" + ("00" + (":" + "00")))) == " 00:00:00";
    RenderedTimeJan10(d);
  }

  /** `en-US` formats 2001-01-10 as `10/01/2001`. */
  lemma FormatsDate(m: Manager, integerPattern: string, useAlways: Option<bool>, d: DateConverter.Date)
    requires EnUsManager(m, integerPattern, useAlways) && DateConverterExamples.AtMidnight(d, 2001, 1, 10)
    ensures FormatDate(m, Some(d)) == "10/01/2001"
  {
    EnUsConverters(m, integerPattern, useAlways);
    DateConverterExamples.TokensFourDigitYear(DateConverterOf(m).pattern, 'd', 'M');
    RenderDateJan10(d);
  }

  /** `en-US` parses `10/01/2001` back to 2001-01-10. */
  lemma ParsesDate(m: Manager, integerPattern: string, useAlways: Option<bool>, d: DateConverter.Date, expandYear: nat -> nat)
    requires EnUsManager(m, integerPattern, useAlways) && DateConverterExamples.AtMidnight(d, 2001, 1, 10)
    ensures ParseDate(m, Some("10/01/2001"), expandYear) == Ok(Some(d))
  {
    EnUsConverters(m, integerPattern, useAlways);
    var toks := DateConverter.Tokens(DateConverterOf(m));
    DateConverterExamples.TokensFourDigitYear(DateConverterOf(m).pattern, 'd', 'M');
    FormatsDate(m, integerPattern, useAlways, d);
    DateConverterExamples.MidnightConditions(toks, d, expandYear);
    DateRoundTrip(m, d, expandYear);
  }

  lemma FormatsDateTimeParts(m: Manager, integerPattern: string, useAlways: Option<bool>, d: DateConverter.Date)
    requires EnUsManager(m, integerPattern, useAlways) && DateConverterExamples.AtMidnight(d, 2001, 1, 10)
    ensures FormatDateTime(m, Some(d)) == "10/01/2001" + " 00:00:00"
  {
    EnUsConverters(m, integerPattern, useAlways);
    var date := [Field('d', 2), Literal('/'), Field('M', 2), Literal('/'), Field('y', 4)];
    var time := [Literal(' '), Field('H', 2), Literal(':'), Field('m', 2), Literal(':'), Field('s', 2)];
    DateConverterExamples.TokensDayMonthYearTime("dd/MM/yyyy", " HH:mm:ss");
    DateConverter.RenderConcat(date, time, d);
    RenderDateJan10(d);
    RenderTimeJan10(d);
  }

  /** `en-US` formats 2001-01-10 with its time of day as `10/01/2001 00:00:00`. */
  lemma FormatsDateTime(m: Manager, integerPattern: string, useAlways: Option<bool>, d: DateConverter.Date)
    requires EnUsManager(m, integerPattern, useAlways) && DateConverterExamples.AtMidnight(d, 2001, 1, 10)
    ensures FormatDateTime(m, Some(d)) == "10/01/2001 00:00:00"
  {
    assert "10/01/2001" + " 00:00:00" == "10/01/2001 00:00:00";
    FormatsDateTimeParts(m, integerPattern, useAlways, d);
  }

  // ---------------------------------------------------------------------------
  // Numbers

  /** The `en-US` number settings: `.` and `,`, grouping on, the switch as configured. */
  function EnUsSeparators(useAlways: Option<bool>): NumberConverter.Separators {
    NumberConverter.Separators('.', ',', true, useAlways.GetOr(false))
  }

  lemma EnUsNumberConverters(m: Manager, integerPattern: string, useAlways: Option<bool>)
    requires EnUsManager(m, integerPattern, useAlways)
    ensures IntegerConverterOf(m) == NumberConverter.Converter(integerPattern, EnUsSeparators(useAlways))
    ensures DecimalConverterOf(m) == NumberConverter.Converter("#,##0.00#######", EnUsSeparators(useAlways))
    ensures NumberConverter.Distinct(EnUsSeparators(useAlways))
  {
  }

  /** Parsing the rendering of a whole number gives it back when the pattern rounds to whole numbers or finer. */
  lemma ParsesWhole(c: NumberConverter.Converter, v: NumberConverter.Decimal, text: string)
    requires NumberConverter.Distinct(c.separators) && v.fraction == []
    requires text == NumberConverter.ValueToString(c, Some(v))
    ensures NumberConverter.StringToValue(c, Some(text)) == Ok(Some(v))
  {
    NumberConverter.RoundTrip(c, v);
  }

  /** `en-US` with `#,##0` formats 10000 as `10,000` and parses it back. */
  lemma FormatsNumber(m: Manager, v: NumberConverter.Decimal)
    requires EnUsManager(m, "#,##0", None) && v.whole == 10000 && v.fraction == []
    ensures FormatNumber(m, Some(v)) == "10,000"
    ensures ParseNumber(m, Some("10,000")) == Ok(Some(v))
  {
    EnUsNumberConverters(m, "#,##0", None);
    NumberConverterExamples.Renders10000Integer(IntegerConverterOf(m), v);
    ParsesWhole(IntegerConverterOf(m), v, "10,000");
  }

  lemma FormatsDecimalNumberParts(m: Manager, useAlways: Option<bool>, v: NumberConverter.Decimal)
    requires EnUsManager(m, "#,##0", useAlways) && v.whole == 10000 && v.fraction == []
    ensures FormatDecimalNumber(m, Some(v)) == "10,000" + (['.'] + "00")
    ensures ParseDecimalNumber(m, Some("10,000" + (['.'] + "00"))) == Ok(Some(v))
  {
    EnUsNumberConverters(m, "#,##0", useAlways);
    NumberConverterExamples.Renders10000Decimal(DecimalConverterOf(m), v);
    ParsesWhole(DecimalConverterOf(m), v, FormatDecimalNumber(m, Some(v)));
  }

  /** `en-US` formats 10000 with the number pattern as `10,000.00` and parses it back. */
  lemma FormatsDecimalNumber(m: Manager, useAlways: Option<bool>, v: NumberConverter.Decimal)
    requires EnUsManager(m, "#,##0", useAlways) && v.whole == 10000 && v.fraction == []
    ensures FormatDecimalNumber(m, Some(v)) == "10,000.00"
    ensures ParseDecimalNumber(m, Some("10,000.00")) == Ok(Some(v))
  {
    assert "10,000" + (['.'] + "00") == "10,000.00";
    FormatsDecimalNumberParts(m, useAlways, v);
  }

  lemma FormatsLargeDecimalParts(m: Manager, useAlways: Option<bool>, v: NumberConverter.Decimal)
    requires EnUsManager(m, "#,##0", useAlways) && v.whole == 123456789 && v.fraction == [1, 2]
    ensures FormatDecimalNumber(m, Some(v)) == "123,456,789" + (['.'] + "12")
  {
    EnUsNumberConverters(m, "#,##0", useAlways);
    NumberConverterExamples.Renders123456789Decimal(DecimalConverterOf(m), v);
  }

  /** `en-US` formats 123456789.12 as `123,456,789.12`. */
  lemma FormatsLargeDecimal(m: Manager, useAlways: Option<bool>, v: NumberConverter.Decimal)
    requires EnUsManager(m, "#,##0", useAlways) && v.whole == 123456789 && v.fraction == [1, 2]
    ensures FormatDecimalNumber(m, Some(v)) == "123,456,789.12"
  {
    assert "123,456,789" + (['.'] + "12") == "123,456,789.12";
    FormatsLargeDecimalParts(m, useAlways, v);
  }

  lemma FormatsOtherLargeDecimalParts(m: Manager, useAlways: Option<bool>, v: NumberConverter.Decimal)
    requires EnUsManager(m, "#,##0", useAlways) && v.whole == 55454545 && v.fraction == [1, 2]
    ensures FormatDecimalNumber(m, Some(v)) == "55,454,545" + (['.'] + "12")
  {
    EnUsNumberConverters(m, "#,##0", useAlways);
    NumberConverterExamples.Renders55454545Decimal(DecimalConverterOf(m), v);
  }

  /** `en-US` formats 55454545.12 as `55,454,545.12`. */
  lemma FormatsOtherLargeDecimal(m: Manager, useAlways: Option<bool>, v: NumberConverter.Decimal)
    requires EnUsManager(m, "#,##0", useAlways) && v.whole == 55454545 && v.fraction == [1, 2]
    ensures FormatDecimalNumber(m, Some(v)) == "55,454,545.12"
  {
    assert "55,454,545" + (['.'] + "12") == "55,454,545.12";
    FormatsOtherLargeDecimalParts(m, useAlways, v);
  }

  lemma FormatsNumberWithLoneSeparatorParts(m: Manager, v: NumberConverter.Decimal)
    requires EnUsManager(m, "#,##0", Some(true)) && v.whole == 10000 && v.fraction == []
    ensures FormatNumber(m, Some(v)) == "10,000" + ['.']
    ensures ParseNumber(m, Some("10,000")) == Ok(Some(v))
  {
    EnUsNumberConverters(m, "#,##0", Some(true));
    NumberConverterExamples.Renders10000Integer(IntegerConverterOf(m), v);
    var plain := NumberConverter.Converter("#,##0", EnUsSeparators(None));
    NumberConverterExamples.Renders10000Integer(plain, v);
    ParsesWhole(plain, v, "10,000");
    NumberConverter.ParseReadsSeparatorsOnly(plain, IntegerConverterOf(m), Some("10,000"));
  }

  /** With the decimal separator always shown, `#,##0` formats 10000 as `10,000.`,
      and `10,000` still parses to 10000. */
  lemma FormatsNumberWithLoneSeparator(m: Manager, v: NumberConverter.Decimal)
    requires EnUsManager(m, "#,##0", Some(true)) && v.whole == 10000 && v.fraction == []
    ensures FormatNumber(m, Some(v)) == "10,000."
    ensures ParseNumber(m, Some("10,000")) == Ok(Some(v))
  {
    FormatsNumberWithLoneSeparatorParts(m, v);
  }

  lemma FormatsNumberWithFixedFractionParts(m: Manager, v: NumberConverter.Decimal)
    requires EnUsManager(m, "#,##0.00", Some(true)) && v.whole == 10000 && v.fraction == []
    ensures FormatNumber(m, Some(v)) == "10,000" + (['.'] + "00")
    ensures ParseNumber(m, Some("10,000" + (['.'] + "00"))) == Ok(Some(v))
  {
    EnUsNumberConverters(m, "#,##0.00", Some(true));
    NumberConverterExamples.Renders10000FixedTwo(IntegerConverterOf(m), v);
    ParsesWhole(IntegerConverterOf(m), v, FormatNumber(m, Some(v)));
  }

  /** With the decimal separator always shown and `#,##0.00` as integer
      pattern, 10000 formats as `10,000.00` and parses back. */
  lemma FormatsNumberWithFixedFraction(m: Manager, v: NumberConverter.Decimal)
    requires EnUsManager(m, "#,##0.00", Some(true)) && v.whole == 10000 && v.fraction == []
    ensures FormatNumber(m, Some(v)) == "10,000.00"
    ensures ParseNumber(m, Some("10,000.00")) == Ok(Some(v))
  {
    assert "10,000" + (['.'] + "00") == "10,000.00";
    FormatsNumberWithFixedFractionParts(m, v);
  }
}
