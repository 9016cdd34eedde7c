/** The date converter's documented cases, each stated for the concrete
    patterns, dates and texts the repository's tests use. Concrete values
    are passed in as parameters fixed by `requires`, which keeps the
    verifier from unfolding the recursive definitions without bound. */
module DateConverterExamples {
  import opened Results
  import opened Digits
  import opened PatternTokenizer
  import opened DateConverter

  // ---------------------------------------------------------------------------
  // Tokens of the patterns used

  /** `MM/dd/yyyy` and `dd/MM/yyyy`: the month and the day as two-digit
      fields in either order, then a four-digit year. */
  lemma TokensFourDigitYear(p: string, first: char, second: char)
    requires (first == 'M' && second == 'd') || (first == 'd' && second == 'M')
    requires p == [first, first, '/', second, second, '/', 'y', 'y', 'y', 'y']
    ensures Tokenize(p, Symbols) == [Field(first, 2), Literal('/'), Field(second, 2), Literal('/'), Field('y', 4)]
  {
    var toks := [Field(first, 2), Literal('/'), Field(second, 2), Literal('/'), Field('y', 4)];
    if first == 'M' {
      assert toks == [Field('M', 2), Literal('/'), Field('d', 2), Literal('/'), Field('y', 4)];
      assert Untokenize([Field('M', 2), Literal('/'), Field('d', 2), Literal('/'), Field('y', 4)]) == "MM/dd/yyyy";
    } else {
      assert toks == [Field('d', 2), Literal('/'), Field('M', 2), Literal('/'), Field('y', 4)];
      assert Untokenize([Field('d', 2), Literal('/'), Field('M', 2), Literal('/'), Field('y', 4)]) == "dd/MM/yyyy";
    }
    TokenizeUntokenize(toks, Symbols);
  }

  lemma TokensDayMonthShortYear(p: string)
    requires p == "dd/MM/yy"
    ensures Tokenize(p, Symbols) == [Field('d', 2), Literal('/'), Field('M', 2), Literal('/'), Field('y', 2)]
  {
    var toks := [Field('d', 2), Literal('/'), Field('M', 2), Literal('/'), Field('y', 2)];
    assert Untokenize(toks) == p;
    TokenizeUntokenize(toks, Symbols);
  }

  lemma TokensTime(p: string)
    requires p == " HH:mm:ss"
    ensures Tokenize(p, Symbols) == [Literal(' '), Field('H', 2), Literal(':'), Field('m', 2), Literal(':'), Field('s', 2)]
  {
    var toks := [Literal(' '), Field('H', 2), Literal(':'), Field('m', 2), Literal(':'), Field('s', 2)];
    assert Untokenize(toks) == p;
    TokenizeUntokenize(toks, Symbols);
  }

  /** The date-and-time pattern is the date pattern followed by the time pattern. */
  lemma TokensDayMonthYearTime(date: string, time: string)
    requires date == "dd/MM/yyyy" && time == " HH:mm:ss"
    ensures Tokenize(date + time, Symbols) ==
      [Field('d', 2), Literal('/'), Field('M', 2), Literal('/'), Field('y', 4)] +
      [Literal(' '), Field('H', 2), Literal(':'), Field('m', 2), Literal(':'), Field('s', 2)]
  {
    TokensFourDigitYear(date, 'd', 'M');
    TokensTime(time);
    var a, b := Tokenize(date, Symbols), Tokenize(time, Symbols);
    UntokenizeConcat(a, b);
    CanonicalConcat(a, b, Symbols);
    TokenizeUntokenize(a + b, Symbols);
  }

  // ---------------------------------------------------------------------------
  // Field texts

  lemma RenderCons(t: Token, rest: seq<Token>, d: Date)
    ensures Render([t] + rest, d) == Show(t, d) + Render(rest, d)
  {
    assert ([t] + rest)[0] == t && ([t] + rest)[1..] == rest;
  }

  /** Three fields separated by one literal character, as in `dd/MM/yyyy` or `HH:mm:ss`. */
  lemma RenderThreeFields(s0: char, w0: nat, c: char, s1: char, w1: nat, s2: char, w2: nat, d: Date)
    ensures Render([Field(s0, w0), Literal(c), Field(s1, w1), Literal(c), Field(s2, w2)], d)
         == RenderField(d, s0, w0) + ([c] + (RenderField(d, s1, w1) + ([c] + RenderField(d, s2, w2))))
  {
    var t4 := [Field(s2, w2)];
    var t3 := [Literal(c)] + t4;
    var t2 := [Field(s1, w1)] + t3;
    var t1 := [Literal(c)] + t2;
    var t0 := [Field(s0, w0)] + t1;
    assert t0 == [Field(s0, w0), Literal(c), Field(s1, w1), Literal(c), Field(s2, w2)];
    RenderCons(Field(s2, w2), [], d);
    assert t4 == [Field(s2, w2)] + [];
    assert Render(t4, d) == RenderField(d, s2, w2);
    RenderCons(Literal(c), t4, d);
    RenderCons(Field(s1, w1), t3, d);
    RenderCons(Literal(c), t2, d);
    RenderCons(Field(s0, w0), t1, d);
  }

  /** A two-digit field showing the value `10 * hi + lo`. */
  lemma TwoDigitField(d: Date, sym: char, hi: Digit, lo: Digit)
    requires FieldValue(d, sym, 2) == 10 * hi + lo
    ensures RenderField(d, sym, 2) == [Char(hi), Char(lo)]
  {
    if hi == 0 {
      assert ToDigits(lo) == [lo];
      assert PadLeft([lo], 2) == [0, lo];
    } else {
      assert ToDigits(hi) == [hi];
      assert ToDigits(10 * hi + lo) == [hi, lo];
    }
  }

  /** `d` is midnight at the start of the given calendar day. */
  predicate AtMidnight(d: Date, year: nat, month: nat, day: nat) {
    d.year == year && d.month == month && d.day == day && d.hour == 0 && d.minute == 0 && d.second == 0
  }

  /** The fields of 2001-01-15 00:00:00 as the tests' patterns show them. */
  lemma FieldsOfJan15(d: Date)
    requires AtMidnight(d, 2001, 1, 15)
    ensures RenderField(d, 'y', 4) == "2001"
    ensures RenderField(d, 'y', 2) == "01"
    ensures RenderField(d, 'M', 2) == "01"
    ensures RenderField(d, 'd', 2) == "15"
  {
    assert ToDigits(2) == [2];
    assert ToDigits(20) == [2, 0];
    assert ToDigits(200) == [2, 0, 0];
    assert ToDigits(2001) == [2, 0, 0, 1];
    TwoDigitField(d, 'y', 0, 1);
    TwoDigitField(d, 'M', 0, 1);
    TwoDigitField(d, 'd', 1, 5);
  }

  lemma RenderedMonthDayYear(d: Date)
    requires AtMidnight(d, 2001, 1, 15)
    ensures Render([Field('M', 2), Literal('/'), Field('d', 2), Literal('/'), Field('y', 4)], d)
         == "01" + ("/" + ("15" + ("/" + "2001")))
  {
    RenderThreeFields('M', 2, '/', 'd', 2, 'y', 4, d);
    FieldsOfJan15(d);
  }

  lemma RenderMonthDayYear(d: Date)
    requires AtMidnight(d, 2001, 1, 15)
    ensures Render([Field('M', 2), Literal('/'), Field('d', 2), Literal('/'), Field('y', 4)], d) == "01/15/2001"
  {
    assert "01" + ("/" + ("15" + ("/" + "2001"))) == "01/15/2001";
    RenderedMonthDayYear(d);
  }

  lemma RenderedDayMonthShortYear(d: Date)
    requires AtMidnight(d, 2001, 1, 15)
    ensures Render([Field('d', 2), Literal('/'), Field('M', 2), Literal('/'), Field('y', 2)], d)
         == "15" + ("/" + ("01" + ("/" + "01")))
  {
    RenderThreeFields('d', 2, '/', 'M', 2, 'y', 2, d);
    FieldsOfJan15(d);
  }

  lemma RenderDayMonthShortYear(d: Date)
    requires AtMidnight(d, 2001, 1, 15)
    ensures Render([Field('d', 2), Literal('/'), Field('M', 2), Literal('/'), Field('y', 2)], d) == "15/01/01"
  {
    assert "15" + ("/" + ("01" + ("/" + "01"))) == "15/01/01";
    RenderedDayMonthShortYear(d);
  }

  /** A date at midnight with a four-digit year meets every condition of the
      round trip under `MM/dd/yyyy` and under `dd/MM/yyyy`. */
  lemma MidnightConditions(toks: seq<Token>, d: Date, expandYear: nat -> nat)
    requires || toks == [Field('M', 2), Literal('/'), Field('d', 2), Literal('/'), Field('y', 4)]
             || toks == [Field('d', 2), Literal('/'), Field('M', 2), Literal('/'), Field('y', 4)]
    requires ValidDate(d) && d.year < 10000 && d.hour == 0 && d.minute == 0 && d.second == 0
    ensures Fits(toks, d) && AgreesOffPattern(toks, d, Epoch)
    ensures HasTwoDigitYear(toks) ==> expandYear(d.year % 100) == d.year
  {
    assert toks[0].symbol in {'M', 'd'} && toks[2].symbol in {'M', 'd'} && toks[0].symbol != toks[2].symbol;
    assert toks[4].symbol == 'y';
    assert Pow10(2) == 100 && Pow10(4) == 10000;
    assert !HasTwoDigitYear(toks);
  }

  // ---------------------------------------------------------------------------
  // The cases

  /** `MM/dd/yyyy` renders 2001-01-15 as `01/15/2001`. */
  lemma RendersMonthDayYear(c: Converter, d: Date)
    requires c.pattern == "MM/dd/yyyy" && AtMidnight(d, 2001, 1, 15)
    ensures ValueToString(c, Some(d)) == "01/15/2001"
  {
    TokensFourDigitYear(c.pattern, 'M', 'd');
    RenderMonthDayYear(d);
  }

  /** `dd/MM/yy` renders 2001-01-15 as `15/01/01`: the year modulo 100. */
  lemma RendersTwoDigitYear(c: Converter, d: Date)
    requires c.pattern == "dd/MM/yy" && AtMidnight(d, 2001, 1, 15)
    ensures ValueToString(c, Some(d)) == "15/01/01"
  {
    TokensDayMonthShortYear(c.pattern);
    RenderDayMonthShortYear(d);
  }

  /** Scanning `01/15/2001` under `MM/dd/yyyy` gives 2001-01-15 back. */
  lemma ScansMonthDayYear(c: Converter, d: Date, expandYear: nat -> nat)
    requires c.pattern == "MM/dd/yyyy" && AtMidnight(d, 2001, 1, 15)
    ensures StringToValue(c, Some("01/15/2001"), expandYear) == Ok(Some(d))
  {
    TokensFourDigitYear(c.pattern, 'M', 'd');
    RendersMonthDayYear(c, d);
    MidnightConditions(Tokens(c), d, expandYear);
    RoundTrip(c, d, expandYear);
  }

  /** Letters under `dd/MM/yy` are a parse error quoting the whole input. */
  lemma RejectsLetters(c: Converter, text: string, expandYear: nat -> nat)
    requires c.pattern == "dd/MM/yy" && text == "aaaa"
    ensures StringToValue(c, Some(text), expandYear) == Err(ParseError(text))
  {
    assert |text| != |c.pattern|;
  }

  /** Digits without the pattern's separators are a parse error quoting the whole input. */
  lemma RejectsMissingLiterals(c: Converter, text: string, expandYear: nat -> nat)
    requires c.pattern == "dd/MM/yy" && text == "11111"
    ensures StringToValue(c, Some(text), expandYear) == Err(ParseError(text))
  {
    assert |text| != |c.pattern|;
  }

  /** The messages of the two rejected inputs name the input in brackets. */
  lemma RejectionMessages(letters: ParseError, digits: ParseError)
    requires letters == ParseError("aaaa") && digits == ParseError("11111")
    ensures letters.Message() == "invalid parsed value [aaaa]"
    ensures digits.Message() == "invalid parsed value [11111]"
  {
  }
}
