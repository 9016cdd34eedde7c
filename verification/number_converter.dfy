/** The number converter: a number pattern such as `#,##0.00#######` plus a
    locale's separator configuration drive rendering a non-negative
    fixed-point number to text and parsing text back.

    The pattern's integer part (left of the first `.`) gives the minimum
    number of integer digits (its `0`s) and whether digits are grouped (a
    `,`); its fraction part gives the mandatory fraction digits (`0`) and the
    optional ones (`#`), shown only when not zero.
 */
module NumberConverter {
  import opened Results
  import opened Digits
  import opened Strings

  /** A non-negative number: its whole part and its fraction digits, most significant first. */
  datatype Decimal = Decimal(whole: nat, fraction: seq<Digit>)

  /** What a number pattern prescribes. */
  datatype NumberPattern = NumberPattern(grouping: bool, minInt: nat, minFrac: nat, maxFrac: nat)

  /** A locale's separator configuration. */
  datatype Separators = Separators(decimal: char, grouping: char, useGrouping: bool, alwaysShowDecimal: bool)

  /** A converter holds the pattern it was built with and the locale's separators. */
  datatype Converter = Converter(pattern: string, separators: Separators)

  // ---------------------------------------------------------------------------
  // Patterns

  /** Reads a number pattern: the text before the first `.` is the integer
      template, the text after it the fraction template. */
  function ReadPattern(p: string): (np: NumberPattern)
    ensures np.minFrac <= np.maxFrac
    ensures '.' !in p ==> np.maxFrac == 0
    ensures np.grouping <==> ',' in p[..IndexOf(p, '.')]
  {
    var i := IndexOf(p, '.');
    var integer := p[..i];
    var fraction := if i < |p| then p[i + 1..] else "";
    NumberPattern(',' in integer, Count(integer, '0'), Count(fraction, '0'),
                  Count(fraction, '0') + Count(fraction, '#'))
  }

  lemma SplitAtPoint(p: string, t: string, f: string)
    requires p == t + "." + f && '.' !in t
    ensures IndexOf(p, '.') == |t| && p[..|t|] == t && p[|t| + 1..] == f
  {
    assert p == t + ("." + f);
    IndexAt(t, "." + f, '.');
    assert p[..|t|] == t;
  }

  /** A pattern without a point is all integer template: its `0`s are the
      minimum integer digits, a `,` turns grouping on, and no fraction digit is shown. */
  lemma ReadIntegerTemplate(integer: string)
    requires '.' !in integer
    ensures ReadPattern(integer) == NumberPattern(',' in integer, Count(integer, '0'), 0, 0)
  {
    IndexAt(integer, "", '.');
    assert integer + "" == integer && integer[..|integer|] == integer;
  }

  /** A pattern with a point: the `0`s before it are the minimum integer
      digits, a `,` before it turns grouping on, and after it the `0`s are the
      mandatory fraction digits and the `0`s and `#`s together the maximum. */
  lemma ReadTemplates(integer: string, fraction: string)
    requires '.' !in integer
    ensures ReadPattern(integer + "." + fraction)
         == NumberPattern(',' in integer, Count(integer, '0'), Count(fraction, '0'), Count(fraction, '0') + Count(fraction, '#'))
  {
    SplitAtPoint(integer + "." + fraction, integer, fraction);
  }

  /** A fraction template of mandatory digits followed by optional ones. */
  lemma FractionTemplate(zeros: string, hashes: string)
    requires forall i :: 0 <= i < |zeros| ==> zeros[i] == '0'
    requires forall i :: 0 <= i < |hashes| ==> hashes[i] == '#'
    ensures Count(zeros + hashes, '0') == |zeros| && Count(zeros + hashes, '#') == |hashes|
  {
    CountConcat(zeros, hashes, '0');
    CountConcat(zeros, hashes, '#');
    CountAll(zeros, '0');
    CountAll(hashes, '#');
    assert '#' !in zeros && '0' !in hashes;
  }

  /** The plainest integer template: `#` or `#,`, then the mandatory `0`s. */
  function IntegerTemplate(grouping: bool, minInt: nat): string {
    (if grouping then "#," else "#") + seq(minInt, _ => '0')
  }

  lemma IntegerTemplateReads(grouping: bool, minInt: nat)
    ensures var t := IntegerTemplate(grouping, minInt);
      '.' !in t && (',' in t <==> grouping) && Count(t, '0') == minInt
  {
    var lead: string := if grouping then "#," else "#";
    var zeros: string := seq(minInt, _ => '0');
    var t := lead + zeros;
    CountConcat(lead, zeros, '0');
    CountAll(zeros, '0');
    assert Count(lead, '0') == 0;
    assert ',' !in zeros;
    if grouping { assert t[1] == ','; }
  }

  /** The plainest pattern that prescribes `np`: the integer template, then,
      when fraction digits are allowed, a point, the mandatory fraction `0`s
      and the optional `#`s. */
  function WritePattern(np: NumberPattern): string
    requires np.minFrac <= np.maxFrac
  {
    var integer := IntegerTemplate(np.grouping, np.minInt);
    if np.maxFrac == 0 then integer
    else integer + "." + (seq(np.minFrac, _ => '0') + seq(np.maxFrac - np.minFrac, _ => '#'))
  }

  /** Reading a written pattern gives back what it prescribes. */
  lemma ReadWritePattern(np: NumberPattern)
    requires np.minFrac <= np.maxFrac
    ensures ReadPattern(WritePattern(np)) == np
  {
    var integer := IntegerTemplate(np.grouping, np.minInt);
    IntegerTemplateReads(np.grouping, np.minInt);
    if np.maxFrac == 0 {
      ReadIntegerTemplate(integer);
    } else {
      var fz: string := seq(np.minFrac, _ => '0');
      var fh: string := seq(np.maxFrac - np.minFrac, _ => '#');
      FractionTemplate(fz, fh);
      ReadTemplates(integer, fz + fh);
    }
  }

  // ---------------------------------------------------------------------------
  // Digit grouping

  /** Digits in threes from the right: separators stand exactly where the
      distance to the end is a positive multiple of four, and the leading
      group, the text before the first separator, has one to three characters. */
  predicate GroupedAt(r: string, sep: char) {
    && |r| % 4 != 0
    && forall i :: 0 <= i < |r| ==> (r[i] == sep <==> 0 < i && (|r| - i) % 4 == 0)
  }

  lemma GroupedStep(g: string, sep: char, last: string)
    requires GroupedAt(g, sep) && |g| >= 1
    requires |last| == 3 && sep !in last
    ensures GroupedAt(g + [sep] + last, sep)
  {
    var r := g + [sep] + last;
    forall i | 0 <= i < |r|
      ensures r[i] == sep <==> 0 < i && (|r| - i) % 4 == 0
    {
      if i < |g| {
        assert r[i] == g[i];
        assert |r| - i == (|g| - i) + 4;
      } else if i > |g| {
        assert r[i] == last[i - |g| - 1];
      }
    }
  }

  lemma GroupedShort(s: string, sep: char)
    requires 1 <= |s| <= 3 && sep !in s
    ensures GroupedAt(s, sep)
  {
    forall i | 0 <= i < |s|
      ensures s[i] != sep && !(0 < i && (|s| - i) % 4 == 0)
    {
      assert 0 < |s| - i <= 3;
    }
  }

  /** Inserts `sep` between every run of three digits, counted from the right. */
  function Group(s: string, sep: char): string
    decreases |s|
  {
    if |s| <= 3 then s else Group(s[..|s| - 3], sep) + [sep] + s[|s| - 3..]
  }

  /** Dropping the separators undoes grouping, and the separators stand
      exactly every four places from the right. */
  lemma {:induction false} GroupInverse(s: string, sep: char)
    requires |s| >= 1 && sep !in s
    ensures Strip(Group(s, sep), sep) == s
    ensures GroupedAt(Group(s, sep), sep)
    decreases |s|
  {
    if |s| <= 3 {
      GroupedShort(s, sep);
    } else {
      var head := s[..|s| - 3];
      var last := s[|s| - 3..];
      assert s == head + last;
      var g := Group(head, sep);
      GroupInverse(head, sep);
      StripConcat(g + [sep], last, sep);
      StripConcat(g, [sep], sep);
      assert Strip([sep], sep) == "";
      assert |g| >= 1 by {
        assert |Strip(g, sep)| >= 1;
      }
      GroupedStep(g, sep, last);
    }
  }

  // ---------------------------------------------------------------------------
  // Rounding

  /** The fraction without its trailing zeros. */
  function TrimZeros(ds: seq<Digit>): (r: seq<Digit>)
    ensures |r| <= |ds| && r == ds[..|r|]
    ensures forall i :: |r| <= i < |ds| ==> ds[i] == 0
    ensures |r| == 0 || r[|r| - 1] != 0
  {
    if |ds| == 0 || ds[|ds| - 1] != 0 then ds
    else TrimZeros(ds[..|ds| - 1])
  }

  /** The fraction padded with zeros to at least `k` digits. */
  function PadRight(ds: seq<Digit>, k: nat): (r: seq<Digit>)
    ensures |r| == if |ds| >= k then |ds| else k
    ensures r[..|ds|] == ds
    ensures forall i :: |ds| <= i < |r| ==> r[i] == 0
  {
    if |ds| >= k then ds else ds + Zeros(k - |ds|)
  }

  lemma TrimZerosUnique(ds: seq<Digit>, r: seq<Digit>)
    requires |r| <= |ds| && r == ds[..|r|]
    requires forall i :: |r| <= i < |ds| ==> ds[i] == 0
    requires |r| == 0 || r[|r| - 1] != 0
    ensures TrimZeros(ds) == r
  {
  }

  /** Padding with zeros does not change the trimmed fraction. */
  lemma TrimPadded(ds: seq<Digit>, k: nat)
    ensures TrimZeros(PadRight(ds, k)) == TrimZeros(ds)
  {
    var t := TrimZeros(ds);
    TrimZerosUnique(PadRight(ds, k), t);
  }

  /** The value of a fraction of at most `k` digits, scaled by ten to the `k`. */
  function Scaled(v: Decimal, k: nat): nat
    requires |v.fraction| <= k
  {
    v.whole * Pow10(k) + FromDigits(PadRight(v.fraction, k))
  }

  /** Adds one in the last place: the carry out and the new digits. */
  function Increment(ds: seq<Digit>): (r: (bool, seq<Digit>))
    ensures |r.1| == |ds|
    ensures FromDigits(r.1) + (if r.0 then Pow10(|ds|) else 0) == FromDigits(ds) + 1
  {
    if |ds| == 0 then (true, [])
    else
      var init := ds[..|ds| - 1];
      var last := ds[|ds| - 1];
      assert ds == init + [last];
      FromDigitsSnoc(init, last);
      if last < 9 then
        FromDigitsSnoc(init, last + 1);
        (false, init + [last + 1])
      else
        var (c, inc) := Increment(init);
        FromDigitsSnoc(inc, 0);
        (c, inc + [0])
  }

  /** The fraction cut to `k` digits. */
  function Truncate(v: Decimal, k: nat): (r: Decimal)
    ensures |r.fraction| <= k
  {
    if |v.fraction| <= k then v else Decimal(v.whole, v.fraction[..k])
  }

  lemma CarryValue(w: nat, kept: seq<Digit>, inc: seq<Digit>, carry: bool, k: nat)
    requires |kept| == k && |inc| == k
    requires FromDigits(inc) + (if carry then Pow10(k) else 0) == FromDigits(kept) + 1
    ensures Scaled(Decimal(w + (if carry then 1 else 0), inc), k) == Scaled(Decimal(w, kept), k) + 1
  {
    assert PadRight(inc, k) == inc && PadRight(kept, k) == kept;
    if carry {
      assert (w + 1) * Pow10(k) == w * Pow10(k) + Pow10(k);
    }
  }

  /** Rounds half up to at most `k` fraction digits. */
  function Round(v: Decimal, k: nat): (r: Decimal)
    ensures |r.fraction| <= k
    ensures |v.fraction| <= k ==> r == v
    ensures Scaled(r, k) == Scaled(Truncate(v, k), k) + (if |v.fraction| > k && v.fraction[k] >= 5 then 1 else 0)
  {
    if |v.fraction| <= k then v
    else
      var kept := v.fraction[..k];
      if v.fraction[k] < 5 then Decimal(v.whole, kept)
      else
        var (carry, inc) := Increment(kept);
        CarryValue(v.whole, kept, inc, carry, k);
        Decimal(v.whole + (if carry then 1 else 0), inc)
  }

  // ---------------------------------------------------------------------------
  // Rendering

  /** The integer digits: at least the pattern's minimum count, grouped when
      both the pattern and the locale ask for it. */
  function IntegerPart(whole: nat, np: NumberPattern, seps: Separators): (r: string)
    ensures !IsDigitChar(seps.grouping) ==> Strip(r, seps.grouping) == Text(PadLeft(ToDigits(whole), np.minInt))
    ensures !IsDigitChar(seps.grouping) && np.grouping && seps.useGrouping ==> GroupedAt(r, seps.grouping)
    ensures !(np.grouping && seps.useGrouping) ==> AllDigitChars(r)
  {
    var digits := Text(PadLeft(ToDigits(whole), np.minInt));
    if np.grouping && seps.useGrouping then
      if !IsDigitChar(seps.grouping) then
        assert seps.grouping !in digits;
        GroupInverse(digits, seps.grouping);
        Group(digits, seps.grouping)
      else Group(digits, seps.grouping)
    else digits
  }

  /** The fraction digits shown: non-zero digits up to the last one, padded
      with zeros to the mandatory count. */
  function ShownFraction(fraction: seq<Digit>, np: NumberPattern): (r: seq<Digit>)
    requires |fraction| <= np.maxFrac && np.minFrac <= np.maxFrac
    ensures np.minFrac <= |r| <= np.maxFrac
    ensures TrimZeros(r) == TrimZeros(fraction)
    ensures |r| > np.minFrac ==> r[|r| - 1] != 0
  {
    TrimPadded(TrimZeros(fraction), np.minFrac);
    PadRight(TrimZeros(fraction), np.minFrac)
  }

  /** The decimal separator and fraction digits; the separator stands alone
      when nothing is shown but the locale always shows it, and is omitted
      when nothing is shown otherwise. */
  function FractionPart(shown: seq<Digit>, seps: Separators): (r: string)
    ensures |r| == 0 <==> |shown| == 0 && !seps.alwaysShowDecimal
    ensures |r| > 0 ==> r[0] == seps.decimal && r[1..] == Text(shown)
  {
    if |shown| > 0 || seps.alwaysShowDecimal then [seps.decimal] + Text(shown) else ""
  }

  /** The integer part and fraction part of the number rounded to the
      pattern's maximum fraction digits. */
  function Render(v: Decimal, np: NumberPattern, seps: Separators): string
    requires np.minFrac <= np.maxFrac
  {
    var rounded := Round(v, np.maxFrac);
    IntegerPart(rounded.whole, np, seps) + FractionPart(ShownFraction(rounded.fraction, np), seps)
  }

  /** A rendering ends in its fraction part; before it stands the integer
      text, grouped in threes when the pattern and the locale both ask for
      it and plain digits otherwise. */
  lemma RenderLayout(v: Decimal, np: NumberPattern, seps: Separators)
    requires np.minFrac <= np.maxFrac
    ensures var r := Render(v, np, seps);
      var fp := FractionPart(ShownFraction(Round(v, np.maxFrac).fraction, np), seps);
      && |fp| <= |r| && r[|r| - |fp|..] == fp
      && (Distinct(seps) && np.grouping && seps.useGrouping ==> GroupedAt(r[..|r| - |fp|], seps.grouping))
      && (!(np.grouping && seps.useGrouping) ==> AllDigitChars(r[..|r| - |fp|]))
  {
    var x := Round(v, np.maxFrac);
    var ip := IntegerPart(x.whole, np, seps);
    var fp := FractionPart(ShownFraction(x.fraction, np), seps);
    assert Render(v, np, seps) == ip + fp;
    assert (ip + fp)[..|ip|] == ip && (ip + fp)[|ip|..] == fp;
  }

  /** With grouping separators dropped and the decimal separator read as
      `.`, a rendering is the integer digits padded to the minimum count,
      followed, when a fraction digit is shown or the separator always is, by
      a point and the shown digits. */
  lemma RenderPlainText(v: Decimal, np: NumberPattern, seps: Separators)
    requires np.minFrac <= np.maxFrac && Distinct(seps)
    ensures var x := Round(v, np.maxFrac);
      var shown := ShownFraction(x.fraction, np);
      PlainText(seps, Render(v, np, seps))
        == Text(PadLeft(ToDigits(x.whole), np.minInt))
           + (if |shown| > 0 || seps.alwaysShowDecimal then "." + Text(shown) else "")
  {
    var x := Round(v, np.maxFrac);
    PlainParts(PadLeft(ToDigits(x.whole), np.minInt), ShownFraction(x.fraction, np), seps, IntegerPart(x.whole, np, seps));
  }

  lemma PlainParts(digits: seq<Digit>, shown: seq<Digit>, seps: Separators, ip: string)
    requires Distinct(seps) && Strip(ip, seps.grouping) == Text(digits)
    ensures PlainText(seps, ip + FractionPart(shown, seps))
         == Text(digits) + (if |shown| > 0 || seps.alwaysShowDecimal then "." + Text(shown) else "")
  {
    PlainRendering(digits, shown, NumberPattern(false, 0, 0, 0), seps, ip);
  }

  /** Renders a number; an absent number renders as the empty string. */
  function ValueToString(c: Converter, v: Option<Decimal>): (r: string)
    ensures v.None? ==> r == ""
    ensures v.Some? ==> |r| > 0 && r == Render(v.value, ReadPattern(c.pattern), c.separators)
    ensures v.Some? ==> var np := ReadPattern(c.pattern); var x := Round(v.value, np.maxFrac);
      r == IntegerPart(x.whole, np, c.separators) + FractionPart(ShownFraction(x.fraction, np), c.separators)
  {
    match v
    case None => ""
    case Some(x) => Render(x, ReadPattern(c.pattern), c.separators)
  }

  // ---------------------------------------------------------------------------
  // Parsing

  /** The number with its trailing fraction zeros dropped: the canonical form
      of a value, which parsing returns. */
  function Normalize(v: Decimal): Decimal {
    Decimal(v.whole, TrimZeros(v.fraction))
  }

  /** A numeral: digits with at most one `.` among them, and at least one digit. */
  predicate IsNumeral(s: string) {
    && Count(s, '.') <= 1
    && Count(s, '.') < |s|
    && forall k :: 0 <= k < |s| && s[k] != '.' ==> IsDigitChar(s[k])
  }

  /** Splitting at the first `.` shows a numeral as digit text, optionally
      followed by a point and more digit text. */
  lemma NumeralSplit(s: string)
    ensures var i := IndexOf(s, '.');
      IsNumeral(s) <==>
        AllDigitChars(s[..i]) && AllDigitChars(if i < |s| then s[i + 1..] else "") && |s[..i]| + (if i < |s| then |s| - i - 1 else 0) > 0
  {
    var i := IndexOf(s, '.');
    if i == |s| {
      assert s[..i] == s;
    } else {
      PointCount(s, i);
      if IsNumeral(s) {
        NumeralParts(s, i);
      }
      if AllDigitChars(s[..i]) && AllDigitChars(s[i + 1..]) {
        PartsNumeral(s, i);
      }
    }
  }

  /** A text split at its first `.` has one point more than the rest after it. */
  lemma PointCount(s: string, i: nat)
    requires i < |s| && s[i] == '.' && '.' !in s[..i]
    ensures Count(s, '.') == 1 + Count(s[i + 1..], '.')
  {
    var left, right := s[..i], s[i + 1..];
    assert s == left + ['.'] + right;
    CountConcat(left + ['.'], right, '.');
    CountConcat(left, ['.'], '.');
    assert Count(['.'], '.') == 1;
  }

  lemma NumeralParts(s: string, i: nat)
    requires i < |s| && s[i] == '.' && '.' !in s[..i]
    requires Count(s, '.') == 1 + Count(s[i + 1..], '.')
    requires IsNumeral(s)
    ensures AllDigitChars(s[..i]) && AllDigitChars(s[i + 1..])
  {
    var right := s[i + 1..];
    assert '.' !in right;
    forall k | 0 <= k < |right|
      ensures IsDigitChar(right[k])
    {
      assert right[k] == s[i + 1 + k];
    }
  }

  lemma PartsNumeral(s: string, i: nat)
    requires i < |s| && s[i] == '.' && '.' !in s[..i]
    requires Count(s, '.') == 1 + Count(s[i + 1..], '.')
    requires AllDigitChars(s[..i]) && AllDigitChars(s[i + 1..])
    ensures Count(s, '.') == 1
    ensures forall k :: 0 <= k < |s| && s[k] != '.' ==> IsDigitChar(s[k])
  {
    var right := s[i + 1..];
    assert '.' !in right;
    forall k | 0 <= k < |s| && s[k] != '.'
      ensures IsDigitChar(s[k])
    {
      if k > i { assert s[k] == right[k - i - 1]; }
      else { assert s[k] == s[..i][k]; }
    }
  }

  /** Reads `digits[.digits]` with at least one digit in all. */
  function ReadDecimal(s: string): (r: Option<Decimal>)
    ensures r.Some? <==> IsNumeral(s)
    ensures r.Some? ==> r.value == Normalize(r.value)
    ensures r.Some? && '.' !in s ==> AllDigitChars(s) && r.value == Decimal(FromDigits(Values(s)), [])
  {
    var i := IndexOf(s, '.');
    var left := s[..i];
    var right := if i < |s| then s[i + 1..] else "";
    NumeralSplit(s);
    if AllDigitChars(left) && AllDigitChars(right) && |left| + |right| > 0 then
      assert '.' !in s ==> left == s && right == "";
      Some(Decimal(FromDigits(Values(left)), TrimZeros(Values(right))))
    else None
  }

  /** A numeral with a point denotes the number of its digits before the
      point, with the digits after it (less trailing zeros) as fraction. */
  lemma ReadPointed(a: string, b: string)
    requires AllDigitChars(a) && AllDigitChars(b)
    ensures ReadDecimal(a + "." + b)
         == if |a| + |b| > 0 then Some(Decimal(FromDigits(Values(a)), TrimZeros(Values(b)))) else None
  {
    assert '.' !in a;
    SplitAtPoint(a + "." + b, a, b);
  }

  /** The text the parser reads: grouping separators dropped, the decimal
      separator read as `.`. */
  function PlainText(seps: Separators, text: string): string {
    Replace(Strip(text, seps.grouping), seps.decimal, '.')
  }

  /** Parses a number text: grouping separators are dropped, the decimal
      separator is read as `.`. Absent or empty text gives no number; any
      other text that is not a numeral is a parse error quoting the whole text. */
  function StringToValue(c: Converter, text: Option<string>): (r: Result<Option<Decimal>>)
    ensures text.None? || text.value == "" ==> r == Ok(None)
    ensures r.Err? ==> text.Some? && r.error == ParseError(text.value)
    ensures text.Some? && text.value != "" ==> (r.Ok? <==> IsNumeral(PlainText(c.separators, text.value)))
    ensures r.Ok? && r.value.Some? ==> r.value.value == Normalize(r.value.value)
  {
    if text.None? || text.value == "" then Ok(None)
    else
      match ReadDecimal(PlainText(c.separators, text.value))
      case None => Err(ParseError(text.value))
      case Some(v) => Ok(Some(v))
  }

  /** A text whose plain form is digit text denotes that whole number. */
  lemma ParsesWholeNumeral(c: Converter, text: string, a: string)
    requires PlainText(c.separators, text) == a && AllDigitChars(a) && |a| > 0
    ensures StringToValue(c, Some(text)) == Ok(Some(Decimal(FromDigits(Values(a)), [])))
  {
    assert '.' !in a;
  }

  /** A text whose plain form is `a.b` over digits denotes `a` with fraction
      `b`, less trailing zeros. */
  lemma ParsesPointedNumeral(c: Converter, text: string, a: string, b: string)
    requires PlainText(c.separators, text) == a + "." + b
    requires AllDigitChars(a) && AllDigitChars(b) && |a| + |b| > 0
    ensures StringToValue(c, Some(text)) == Ok(Some(Decimal(FromDigits(Values(a)), TrimZeros(Values(b)))))
  {
    ReadPointed(a, b);
  }

  /** Parsing reads only the two separator characters of the converter:
      neither its pattern nor its switches change what a text means. */
  lemma ParseReadsSeparatorsOnly(c: Converter, c': Converter, text: Option<string>)
    requires c.separators.decimal == c'.separators.decimal && c.separators.grouping == c'.separators.grouping
    ensures StringToValue(c, text) == StringToValue(c', text)
  {
  }

  // ---------------------------------------------------------------------------
  // Round trip

  /** The separators can be told apart from each other and from digits. */
  predicate Distinct(seps: Separators) {
    && seps.decimal != seps.grouping
    && !IsDigitChar(seps.decimal) && !IsDigitChar(seps.grouping)
  }

  lemma ReadWholeAndFraction(digits: seq<Digit>, shown: seq<Digit>)
    requires |digits| > 0
    ensures ReadDecimal(Text(digits) + "." + Text(shown))
         == Some(Decimal(FromDigits(digits), TrimZeros(shown)))
  {
    var d := Text(digits);
    var s := d + "." + Text(shown);
    assert s == d + ("." + Text(shown));
    IndexAt(d, "." + Text(shown), '.');
    assert s[..|d|] == d && s[|d| + 1..] == Text(shown);
    ValuesOfText(digits);
    ValuesOfText(shown);
  }

  lemma ReadWhole(digits: seq<Digit>)
    requires |digits| > 0
    ensures ReadDecimal(Text(digits)) == Some(Decimal(FromDigits(digits), []))
  {
    var d := Text(digits);
    assert '.' !in d;
    IndexAt(d, "", '.');
    assert d + "" == d;
    assert d[..|d|] == d;
    ValuesOfText(digits);
  }

  /** Digit text is left alone when the decimal separator is read as `.`. */
  lemma ReplaceInDigits(ds: seq<Digit>, dec: char)
    requires !IsDigitChar(dec)
    ensures Replace(Text(ds), dec, '.') == Text(ds)
  {
    assert dec !in Text(ds);
    ReplaceAbsent(Text(ds), dec, '.');
  }

  lemma PlainFraction(digits: seq<Digit>, shown: seq<Digit>, dec: char)
    requires !IsDigitChar(dec)
    ensures Replace(Text(digits) + ([dec] + Text(shown)), dec, '.') == Text(digits) + "." + Text(shown)
  {
    ReplaceConcat(Text(digits), [dec] + Text(shown), dec, '.');
    ReplaceConcat([dec], Text(shown), dec, '.');
    ReplaceInDigits(digits, dec);
    ReplaceInDigits(shown, dec);
    assert Replace([dec], dec, '.') == ".";
  }

  /** What the parser sees of a rendering once grouping separators are
      dropped and the decimal separator is read as `.`. */
  lemma PlainRendering(digits: seq<Digit>, shown: seq<Digit>, np: NumberPattern, seps: Separators, ip: string)
    requires Distinct(seps)
    requires Strip(ip, seps.grouping) == Text(digits)
    ensures var fp := FractionPart(shown, seps);
      Replace(Strip(ip + fp, seps.grouping), seps.decimal, '.')
        == if |fp| == 0 then Text(digits) else Text(digits) + "." + Text(shown)
  {
    var fp := FractionPart(shown, seps);
    StripConcat(ip, fp, seps.grouping);
    if |fp| > 0 {
      assert fp == [seps.decimal] + Text(shown);
      assert seps.grouping !in fp;
      PlainFraction(digits, shown, seps.decimal);
    } else {
      assert Text(digits) + fp == Text(digits);
      ReplaceInDigits(digits, seps.decimal);
    }
  }

  lemma ReadRendering(digits: seq<Digit>, shown: seq<Digit>, seps: Separators)
    requires |digits| > 0
    ensures var fp := FractionPart(shown, seps);
      ReadDecimal(if |fp| == 0 then Text(digits) else Text(digits) + "." + Text(shown))
        == Some(Decimal(FromDigits(digits), TrimZeros(shown)))
  {
    if |FractionPart(shown, seps)| == 0 {
      ReadWhole(digits);
    } else {
      ReadWholeAndFraction(digits, shown);
    }
  }

  /** With grouping separators dropped and the decimal separator read as
      `.`, a rendering reads as the rounded number in canonical form. */
  lemma ReadsRendering(v: Decimal, np: NumberPattern, seps: Separators)
    requires Distinct(seps) && np.minFrac <= np.maxFrac
    ensures ReadDecimal(PlainText(seps, Render(v, np, seps)))
         == Some(Normalize(Round(v, np.maxFrac)))
  {
    var rounded := Round(v, np.maxFrac);
    var digits := PadLeft(ToDigits(rounded.whole), np.minInt);
    var shown := ShownFraction(rounded.fraction, np);
    var ip := IntegerPart(rounded.whole, np, seps);
    PlainRendering(digits, shown, np, seps, ip);
    ReadRendering(digits, shown, seps);
    PadLeftValue(ToDigits(rounded.whole), np.minInt);
  }

  /** Parsing a rendered number gives back the number rounded to the
      pattern's fraction digits, in canonical form. */
  lemma RoundTripRounded(c: Converter, v: Decimal)
    requires Distinct(c.separators)
    ensures StringToValue(c, Some(ValueToString(c, Some(v)))) == Ok(Some(Normalize(Round(v, ReadPattern(c.pattern).maxFrac))))
  {
    ReadsRendering(v, ReadPattern(c.pattern), c.separators);
  }

  /** A canonical number with no more fraction digits than the pattern allows
      survives rendering and parsing unchanged. */
  lemma RoundTrip(c: Converter, v: Decimal)
    requires Distinct(c.separators)
    requires v == Normalize(v) && |v.fraction| <= ReadPattern(c.pattern).maxFrac
    ensures StringToValue(c, Some(ValueToString(c, Some(v)))) == Ok(Some(v))
  {
    RoundTripRounded(c, v);
  }
}
