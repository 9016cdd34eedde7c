/** The number converter's documented cases: the three patterns the
    repository's tests configure and the texts they render and parse. Concrete
    values are parameters fixed by `requires`. */
module NumberConverterExamples {
  import opened Results
  import opened Digits
  import opened Strings
  import opened NumberConverter

  // ---------------------------------------------------------------------------
  // Patterns

  /** The integer template every pattern of the tests shares: grouped, one mandatory digit. */
  lemma GroupedTemplate(t: string)
    requires t == "#,##0"
    ensures Count(t, '0') == 1 && ',' in t && '.' !in t
  {
    CountConcat("#,##", "0", '0');
    assert "#,##" + "0" == t;
    assert t[1] == ',';
  }

  /** `#,##0`: grouped, one integer digit at least, no fraction digits. */
  lemma IntegerPattern(p: string)
    requires p == "#,##0"
    ensures ReadPattern(p) == NumberPattern(true, 1, 0, 0)
  {
    GroupedTemplate(p);
    assert IndexOf(p, '.') == |p|;
    assert p[..|p|] == p;
  }

  /** A grouped template, a point, then mandatory and optional fraction digits. */
  lemma FractionPattern(p: string, t: string, zeros: string, hashes: string)
    requires p == t + "." + (zeros + hashes)
    requires Count(t, '0') == 1 && ',' in t && '.' !in t
    requires forall i :: 0 <= i < |zeros| ==> zeros[i] == '0'
    requires forall i :: 0 <= i < |hashes| ==> hashes[i] == '#'
    ensures ReadPattern(p) == NumberPattern(true, 1, |zeros|, |zeros| + |hashes|)
  {
    SplitAtPoint(p, t, zeros + hashes);
    FractionTemplate(zeros, hashes);
  }

  /** `#,##0.00#######`: grouped, two mandatory and seven optional fraction digits. */
  lemma NumberPatternDigits(p: string)
    requires p == "#,##0.00#######"
    ensures ReadPattern(p) == NumberPattern(true, 1, 2, 9)
  {
    var t, zeros, hashes := "#,##0", "00", "#######";
    GroupedTemplate(t);
    assert p == t + "." + (zeros + hashes);
    FractionPattern(p, t, zeros, hashes);
  }

  /** `#,##0.00`: grouped, exactly two fraction digits. */
  lemma FixedTwoPattern(p: string)
    requires p == "#,##0.00"
    ensures ReadPattern(p) == NumberPattern(true, 1, 2, 2)
  {
    var t, zeros := "#,##0", "00";
    GroupedTemplate(t);
    assert p == t + "." + (zeros + "");
    FractionPattern(p, t, zeros, "");
  }

  // ---------------------------------------------------------------------------
  // Integer parts

  lemma DigitsOf10000(n: nat)
    requires n == 10000
    ensures Text(PadLeft(ToDigits(n), 1)) == "10000"
  {
    ToDigitsSnoc(1, 0);
    ToDigitsSnoc(10, 0);
    ToDigitsSnoc(100, 0);
    ToDigitsSnoc(1000, 0);
  }

  lemma Grouped10000(s: string)
    requires s == "10000"
    ensures Group(s, ',') == "10,000"
  {
    assert s[..2] == "10" && s[2..] == "000";
    assert Group("10", ',') == "10";
  }

  /** A leading group of four digits is not grouping in threes: `1000` and
      `1234,567` are rejected, while `1,000` is accepted. */
  lemma LeadingGroupOfFour()
    ensures !GroupedAt("1000", ',') && !GroupedAt("1234,567", ',')
    ensures GroupedAt("1,000", ',')
  {
    var t := "1,000";
    forall i | 0 <= i < |t|
      ensures t[i] == ',' <==> 0 < i && (|t| - i) % 4 == 0
    {
    }
  }

  /** 10000 under a grouping pattern with one mandatory integer digit shows as `10,000`. */
  lemma IntegerPart10000(n: nat, np: NumberPattern, seps: Separators)
    requires n == 10000 && np.grouping && np.minInt == 1 && seps.grouping == ',' && seps.useGrouping
    ensures IntegerPart(n, np, seps) == "10,000"
  {
    DigitsOf10000(n);
    Grouped10000("10000");
  }

  lemma DigitsOf12345(n: nat)
    requires n == 12345
    ensures ToDigits(n) == [1, 2, 3, 4, 5]
  {
    ToDigitsSnoc(1, 2);
    ToDigitsSnoc(12, 3);
    ToDigitsSnoc(123, 4);
    ToDigitsSnoc(1234, 5);
  }

  lemma DigitsOf123456789(n: nat)
    requires n == 123456789
    ensures Text(PadLeft(ToDigits(n), 1)) == "123456789"
  {
    DigitsOf12345(12345);
    ToDigitsSnoc(12345, 6);
    ToDigitsSnoc(123456, 7);
    ToDigitsSnoc(1234567, 8);
    ToDigitsSnoc(12345678, 9);
  }

  lemma Grouped123456789(s: string)
    requires s == "123456789"
    ensures Group(s, ',') == "123" + "," + "456" + "," + "789"
  {
    assert s[..6] == "123456" && s[6..] == "789";
    assert Group("123456", ',') == "123" + "," + "456" by {
      assert "123456"[..3] == "123" && "123456"[3..] == "456";
    }
  }

  lemma IntegerPart123456789(n: nat, np: NumberPattern, seps: Separators)
    requires n == 123456789 && np.grouping && np.minInt == 1 && seps.grouping == ',' && seps.useGrouping
    ensures IntegerPart(n, np, seps) == "123,456,789"
  {
    DigitsOf123456789(n);
    Grouped123456789("123456789");
  }

  lemma DigitsOf55454545(n: nat)
    requires n == 55454545
    ensures Text(PadLeft(ToDigits(n), 1)) == "55454545"
  {
    ToDigitsSnoc(5, 5);
    ToDigitsSnoc(55, 4);
    ToDigitsSnoc(554, 5);
    ToDigitsSnoc(5545, 4);
    ToDigitsSnoc(55454, 5);
    ToDigitsSnoc(554545, 4);
    ToDigitsSnoc(5545454, 5);
  }

  lemma Grouped55454545(s: string)
    requires s == "55454545"
    ensures Group(s, ',') == "55" + "," + "454" + "," + "545"
  {
    assert s[..5] == "55454" && s[5..] == "545";
    assert Group("55454", ',') == "55" + "," + "454" by {
      assert "55454"[..2] == "55" && "55454"[2..] == "454";
    }
  }

  lemma IntegerPart55454545(n: nat, np: NumberPattern, seps: Separators)
    requires n == 55454545 && np.grouping && np.minInt == 1 && seps.grouping == ',' && seps.useGrouping
    ensures IntegerPart(n, np, seps) == "55,454,545"
  {
    DigitsOf55454545(n);
    Grouped55454545("55454545");
  }

  // ---------------------------------------------------------------------------
  // Renderings

  /** Nothing to show but two mandatory digits: the separator and two zeros. */
  lemma FractionZeroZero(np: NumberPattern, seps: Separators)
    requires np.minFrac == 2 <= np.maxFrac
    ensures FractionPart(ShownFraction([], np), seps) == [seps.decimal] + "00"
  {
    assert ShownFraction([], np) == [0, 0];
  }

  /** The fraction `.12` with two mandatory digits shows as itself. */
  lemma FractionOneTwo(np: NumberPattern, seps: Separators)
    requires np.minFrac == 2 <= np.maxFrac
    ensures FractionPart(ShownFraction([1, 2], np), seps) == [seps.decimal] + "12"
  {
    assert TrimZeros([1, 2]) == [1, 2];
    assert ShownFraction([1, 2], np) == [1, 2];
  }

  /** 10000 under `#,##0` shows no fraction, only a lone decimal separator when that is always shown. */
  lemma Renders10000Integer(c: Converter, v: Decimal)
    requires c.pattern == "#,##0" && c.separators.grouping == ',' && c.separators.useGrouping
    requires v.whole == 10000 && v.fraction == []
    ensures ValueToString(c, Some(v)) == "10,000" + (if c.separators.alwaysShowDecimal then [c.separators.decimal] else "")
  {
    IntegerPattern(c.pattern);
    RenderedWith(c, v, ReadPattern(c.pattern));
    IntegerPart10000(v.whole, ReadPattern(c.pattern), c.separators);
  }

  /** A rendering is the integer part followed by the fraction part of the rounded number. */
  lemma RenderedWith(c: Converter, v: Decimal, np: NumberPattern)
    requires np == ReadPattern(c.pattern) && |v.fraction| <= np.maxFrac
    ensures ValueToString(c, Some(v)) == IntegerPart(v.whole, np, c.separators) + FractionPart(ShownFraction(v.fraction, np), c.separators)
  {
  }

  /** 10000 under `#,##0.00` shows two zero fraction digits. */
  lemma Renders10000FixedTwo(c: Converter, v: Decimal)
    requires c.pattern == "#,##0.00" && c.separators.grouping == ',' && c.separators.useGrouping
    requires v.whole == 10000 && v.fraction == []
    ensures ValueToString(c, Some(v)) == "10,000" + ([c.separators.decimal] + "00")
  {
    FixedTwoPattern(c.pattern);
    TwoMandatoryDigits(c, v, ReadPattern(c.pattern));
    IntegerPart10000(v.whole, ReadPattern(c.pattern), c.separators);
    FractionZeroZero(ReadPattern(c.pattern), c.separators);
  }

  lemma TwoMandatoryDigits(c: Converter, v: Decimal, np: NumberPattern)
    requires np == ReadPattern(c.pattern) && np.minFrac == 2 <= np.maxFrac && |v.fraction| <= 2
    ensures ValueToString(c, Some(v)) == IntegerPart(v.whole, np, c.separators) + FractionPart(ShownFraction(v.fraction, np), c.separators)
  {
    RenderedWith(c, v, np);
  }

  /** Under `#,##0.00#######` a whole number shows the two mandatory zeros. */
  lemma Renders10000Decimal(c: Converter, v: Decimal)
    requires c.pattern == "#,##0.00#######" && c.separators.grouping == ',' && c.separators.useGrouping
    requires v.whole == 10000 && v.fraction == []
    ensures ValueToString(c, Some(v)) == "10,000" + ([c.separators.decimal] + "00")
  {
    NumberPatternDigits(c.pattern);
    TwoMandatoryDigits(c, v, ReadPattern(c.pattern));
    IntegerPart10000(v.whole, ReadPattern(c.pattern), c.separators);
    FractionZeroZero(ReadPattern(c.pattern), c.separators);
  }

  /** Under `#,##0.00#######` 123456789.12 shows its two fraction digits and three groups. */
  lemma Renders123456789Decimal(c: Converter, v: Decimal)
    requires c.pattern == "#,##0.00#######" && c.separators.grouping == ',' && c.separators.useGrouping
    requires v.whole == 123456789 && v.fraction == [1, 2]
    ensures ValueToString(c, Some(v)) == "123,456,789" + ([c.separators.decimal] + "12")
  {
    NumberPatternDigits(c.pattern);
    TwoMandatoryDigits(c, v, ReadPattern(c.pattern));
    IntegerPart123456789(v.whole, ReadPattern(c.pattern), c.separators);
    FractionOneTwo(ReadPattern(c.pattern), c.separators);
  }

  /** Under `#,##0.00#######` 55454545.12 shows its two fraction digits and three groups. */
  lemma Renders55454545Decimal(c: Converter, v: Decimal)
    requires c.pattern == "#,##0.00#######" && c.separators.grouping == ',' && c.separators.useGrouping
    requires v.whole == 55454545 && v.fraction == [1, 2]
    ensures ValueToString(c, Some(v)) == "55,454,545" + ([c.separators.decimal] + "12")
  {
    NumberPatternDigits(c.pattern);
    TwoMandatoryDigits(c, v, ReadPattern(c.pattern));
    IntegerPart55454545(v.whole, ReadPattern(c.pattern), c.separators);
    FractionOneTwo(ReadPattern(c.pattern), c.separators);
  }
}
