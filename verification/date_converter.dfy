/** The date converter: one date pattern, read once into tokens, drives both
    rendering a date to text and scanning text back into a date.

    Field symbols are `y` (year), `M` (month), `d` (day of month), `H` (hour),
    `m` (minute) and `s` (second). A field renders its value zero-padded to
    the run length; a `yy` field renders the year modulo 100. Scanning is
    fixed-width: each field consumes exactly its run length of digits and
    each literal must match itself.
 */
module DateConverter {
  import opened Results
  import opened Digits
  import opened PatternTokenizer

  /** A calendar date and time of day; `month` counts from 1. */
  datatype Date = Date(year: nat, month: nat, day: nat, hour: nat, minute: nat, second: nat)

  const Symbols: set<char> := {'y', 'M', 'd', 'H', 'm', 's'}

  /** The values a scan gives the components its pattern does not mention. */
  const Epoch: Date := Date(1970, 1, 1, 0, 0, 0)

  predicate IsLeapYear(y: nat) {
    (y % 4 == 0 && y % 100 != 0) || y % 400 == 0
  }

  function DaysInMonth(y: nat, m: nat): (n: nat)
    requires 1 <= m <= 12
    ensures 28 <= n <= 31
    ensures n == 29 <==> m == 2 && IsLeapYear(y)
  {
    if m == 2 then (if IsLeapYear(y) then 29 else 28)
    else if m == 4 || m == 6 || m == 9 || m == 11 then 30
    else 31
  }

  /** A real Gregorian calendar date with a time of day on a 24-hour clock. */
  predicate ValidDate(d: Date) {
    && 1 <= d.month <= 12
    && 1 <= d.day <= DaysInMonth(d.year, d.month)
    && d.hour < 24 && d.minute < 60 && d.second < 60
  }

  /** A converter holds the pattern it was built with. */
  datatype Converter = Converter(pattern: string)

  function Tokens(c: Converter): seq<Token> {
    Tokenize(c.pattern, Symbols)
  }

  /** Building a converter never fails: an absent or empty pattern falls back
      to the default date pattern. */
  function Create(pattern: Option<string>, defaultPattern: string): (c: Converter)
    ensures pattern.Some? && pattern.value != "" ==> c.pattern == pattern.value
    ensures pattern.None? || pattern.value == "" ==> c.pattern == defaultPattern
  {
    if pattern.Some? && pattern.value != "" then Converter(pattern.value) else Converter(defaultPattern)
  }

  // ---------------------------------------------------------------------------
  // The shape of a text under a pattern

  /** Text character `t` may stand at the place of pattern character `p`:
      a digit under a field symbol, the character itself under a literal. */
  predicate ShapedChar(t: char, p: char) {
    if p in Symbols then IsDigitChar(t) else t == p
  }

  /** `text` has the layout of `pattern`: the same length, digits exactly
      where the pattern has field symbols and the pattern's literals elsewhere. */
  predicate Shaped(text: string, pattern: string) {
    |text| == |pattern| && forall i :: 0 <= i < |text| ==> ShapedChar(text[i], pattern[i])
  }

  lemma ShapedSplit(text: string, p: string, q: string)
    ensures Shaped(text, p + q) <==>
      |text| >= |p| && Shaped(text[..|p|], p) && Shaped(text[|p|..], q)
  {
    if |text| == |p + q| {
      if Shaped(text[..|p|], p) && Shaped(text[|p|..], q) {
        forall i | 0 <= i < |text|
          ensures ShapedChar(text[i], (p + q)[i])
        {
          if i >= |p| {
            assert text[i] == text[|p|..][i - |p|];
          } else {
            assert text[i] == text[..|p|][i];
          }
        }
      }
    }
  }

  // ---------------------------------------------------------------------------
  // Rendering

  /** The value a field shows: the year modulo 100 for `yy`, the component otherwise. */
  function FieldValue(d: Date, symbol: char, width: nat): nat {
    match symbol
    case 'y' => if width == 2 then d.year % 100 else d.year
    case 'M' => d.month
    case 'd' => d.day
    case 'H' => d.hour
    case 'm' => d.minute
    case 's' => d.second
    case _ => 0
  }

  function RenderField(d: Date, symbol: char, width: nat): string {
    Text(PadLeft(ToDigits(FieldValue(d, symbol, width)), width))
  }

  /** Every field value of `d` fits in its field's width. */
  predicate Fits(toks: seq<Token>, d: Date) {
    forall i :: 0 <= i < |toks| && toks[i].Field? ==>
      FieldValue(d, toks[i].symbol, toks[i].width) < Pow10(toks[i].width)
  }

  lemma RenderFieldShape(d: Date, symbol: char, width: nat)
    requires symbol in Symbols && width >= 1
    requires FieldValue(d, symbol, width) < Pow10(width)
    ensures Shaped(RenderField(d, symbol, width), Repeat(symbol, width))
  {
    FitsWidth(FieldValue(d, symbol, width), width);
  }

  /** The text one token contributes to a rendering. */
  function Show(t: Token, d: Date): string {
    match t
    case Literal(c) => [c]
    case Field(s, w) => RenderField(d, s, w)
  }

  function Render(toks: seq<Token>, d: Date): string {
    if |toks| == 0 then "" else Show(toks[0], d) + Render(toks[1..], d)
  }

  /** The texts of the tokens, one per token. */
  function Shown(toks: seq<Token>, d: Date): (parts: seq<string>)
    ensures |parts| == |toks|
  {
    if |toks| == 0 then [] else [Show(toks[0], d)] + Shown(toks[1..], d)
  }

  function Join(parts: seq<string>): string {
    if |parts| == 0 then "" else parts[0] + Join(parts[1..])
  }

  lemma {:induction false} JoinConcat(x: seq<string>, y: seq<string>)
    ensures Join(x + y) == Join(x) + Join(y)
    decreases |x|
  {
    if |x| == 0 {
      assert x + y == y;
    } else {
      assert (x + y)[1..] == x[1..] + y;
      JoinConcat(x[1..], y);
    }
  }

  lemma {:induction false} ShownConcat(a: seq<Token>, b: seq<Token>, d: Date)
    ensures Shown(a + b, d) == Shown(a, d) + Shown(b, d)
    decreases |a|
  {
    if |a| == 0 {
      assert a + b == b;
    } else {
      assert (a + b)[1..] == a[1..] + b;
      ShownConcat(a[1..], b, d);
    }
  }

  /** A rendering joins the texts of its tokens. */
  lemma {:induction false} RenderJoins(toks: seq<Token>, d: Date)
    ensures Render(toks, d) == Join(Shown(toks, d))
    decreases |toks|
  {
    if |toks| > 0 {
      RenderJoins(toks[1..], d);
      var parts := Shown(toks, d);
      assert parts[0] == Show(toks[0], d) && parts[1..] == Shown(toks[1..], d);
    }
  }

  /** Rendering distributes over concatenation of token sequences. */
  lemma RenderConcat(a: seq<Token>, b: seq<Token>, d: Date)
    ensures Render(a + b, d) == Render(a, d) + Render(b, d)
  {
    RenderJoins(a + b, d);
    RenderJoins(a, d);
    RenderJoins(b, d);
    ShownConcat(a, b, d);
    JoinConcat(Shown(a, d), Shown(b, d));
  }

  lemma FitsTail(toks: seq<Token>, d: Date)
    requires |toks| > 0 && Fits(toks, d)
    ensures Fits(toks[1..], d)
  {
    forall i | 0 <= i < |toks[1..]| && toks[1..][i].Field?
      ensures FieldValue(d, toks[1..][i].symbol, toks[1..][i].width) < Pow10(toks[1..][i].width)
    {
      assert toks[1..][i] == toks[i + 1];
    }
  }

  /** A rendering has the pattern's layout when every field value fits its width. */
  lemma {:induction false} RenderShape(toks: seq<Token>, d: Date)
    requires Canonical(toks, Symbols) && Fits(toks, d)
    ensures Shaped(Render(toks, d), Untokenize(toks))
    decreases |toks|
  {
    if |toks| > 0 {
      var tail := Render(toks[1..], d);
      assert Canonical(toks[1..], Symbols);
      FitsTail(toks, d);
      RenderShape(toks[1..], d);
      match toks[0]
      case Literal(c) =>
        ShapedSplit([c] + tail, [c], Untokenize(toks[1..]));
        assert ([c] + tail)[1..] == tail;
      case Field(s, w) =>
        var f := RenderField(d, s, w);
        assert toks[0].Field?;
        RenderFieldShape(d, s, w);
        ShapedSplit(f + tail, Repeat(s, w), Untokenize(toks[1..]));
        assert (f + tail)[..|f|] == f && (f + tail)[|f|..] == tail;
    }
  }

  /** Renders a date; an absent date renders as the empty string. */
  function ValueToString(c: Converter, v: Option<Date>): (r: string)
    ensures v.None? ==> r == ""
    ensures v.Some? && Fits(Tokens(c), v.value) ==> Shaped(r, c.pattern)
  {
    match v
    case None => ""
    case Some(d) =>
      if Fits(Tokens(c), d) then RenderShape(Tokens(c), d); Render(Tokens(c), d)
      else Render(Tokens(c), d)
  }

  // ---------------------------------------------------------------------------
  // Scanning

  /** Stores a scanned field value; a two-digit year is widened by `expandYear`. */
  function SetField(d: Date, symbol: char, width: nat, v: nat, expandYear: nat -> nat): Date {
    match symbol
    case 'y' => d.(year := if width == 2 then expandYear(v) else v)
    case 'M' => d.(month := v)
    case 'd' => d.(day := v)
    case 'H' => d.(hour := v)
    case 'm' => d.(minute := v)
    case 's' => d.(second := v)
    case _ => d
  }

  /** Walks the tokens over the text; `None` on any mismatch or leftover text. */
  function Scan(toks: seq<Token>, s: string, acc: Date, expandYear: nat -> nat): (r: Option<Date>)
    ensures Canonical(toks, Symbols) ==> (r.Some? <==> Shaped(s, Untokenize(toks)))
  {
    if |toks| == 0 then
      if |s| == 0 then Some(acc) else None
    else
      var rest := Untokenize(toks[1..]);
      assert Canonical(toks, Symbols) ==> Canonical(toks[1..], Symbols);
      match toks[0]
      case Literal(c) =>
        ShapedSplit(s, [c], rest);
        if |s| > 0 && s[0] == c then Scan(toks[1..], s[1..], acc, expandYear) else None
      case Field(sym, w) =>
        ShapedSplit(s, Repeat(sym, w), rest);
        if |s| >= w && AllDigitChars(s[..w]) then
          var v := FromDigits(Values(s[..w]));
          Scan(toks[1..], s[w..], SetField(acc, sym, w, v, expandYear), expandYear)
        else None
  }

  /** Scans a text into a date. Absent or empty text gives no date; any text
      that does not have the pattern's layout, or that names no real calendar
      date, is a parse error carrying the whole text. */
  function StringToValue(c: Converter, text: Option<string>, expandYear: nat -> nat): (r: Result<Option<Date>>)
    ensures text.None? || text.value == "" ==> r == Ok(None)
    ensures r.Err? ==> text.Some? && r.error == ParseError(text.value)
    ensures text.Some? && text.value != "" && r.Ok? ==>
      r.value.Some? && ValidDate(r.value.value) && Shaped(text.value, c.pattern)
    ensures text.Some? && !Shaped(text.value, c.pattern) && text.value != "" ==> r.Err?
  {
    if text.None? || text.value == "" then Ok(None)
    else
      match Scan(Tokens(c), text.value, Epoch, expandYear)
      case None => Err(ParseError(text.value))
      case Some(d) => if ValidDate(d) then Ok(Some(d)) else Err(ParseError(text.value))
  }

  // ---------------------------------------------------------------------------
  // Round trip

  /** Some field of the pattern has symbol `sym`. */
  predicate Mentions(toks: seq<Token>, sym: char) {
    exists i :: 0 <= i < |toks| && toks[i].Field? && toks[i].symbol == sym
  }

  predicate HasTwoDigitYear(toks: seq<Token>) {
    exists i :: 0 <= i < |toks| && toks[i] == Field('y', 2)
  }

  /** Every component of `d` that no field of the pattern shows equals that of `base`. */
  predicate AgreesOffPattern(toks: seq<Token>, d: Date, base: Date) {
    && (Mentions(toks, 'y') || d.year == base.year)
    && (Mentions(toks, 'M') || d.month == base.month)
    && (Mentions(toks, 'd') || d.day == base.day)
    && (Mentions(toks, 'H') || d.hour == base.hour)
    && (Mentions(toks, 'm') || d.minute == base.minute)
    && (Mentions(toks, 's') || d.second == base.second)
  }

  /** The date a scan of `d`'s rendering builds from `acc`: every field stores the value `d` showed in it. */
  function Collect(toks: seq<Token>, d: Date, acc: Date, expandYear: nat -> nat): Date {
    if |toks| == 0 then acc
    else
      var acc' := match toks[0]
        case Literal(_) => acc
        case Field(sym, w) => SetField(acc, sym, w, FieldValue(d, sym, w), expandYear);
      Collect(toks[1..], d, acc', expandYear)
  }

  lemma RenderFieldDigits(d: Date, sym: char, w: nat)
    requires FieldValue(d, sym, w) < Pow10(w) && w >= 1
    ensures |RenderField(d, sym, w)| == w
    ensures AllDigitChars(RenderField(d, sym, w))
    ensures FromDigits(Values(RenderField(d, sym, w))) == FieldValue(d, sym, w)
  {
    var ds := PadLeft(ToDigits(FieldValue(d, sym, w)), w);
    FitsWidth(FieldValue(d, sym, w), w);
    PadLeftValue(ToDigits(FieldValue(d, sym, w)), w);
    ValuesOfText(ds);
  }

  /** Scanning a rendering reads back exactly the values the fields showed. */
  lemma {:induction false} ScanRender(toks: seq<Token>, d: Date, acc: Date, expandYear: nat -> nat)
    requires Canonical(toks, Symbols) && Fits(toks, d)
    ensures Scan(toks, Render(toks, d), acc, expandYear) == Some(Collect(toks, d, acc, expandYear))
    decreases |toks|
  {
    if |toks| > 0 {
      var tail := Render(toks[1..], d);
      assert Canonical(toks[1..], Symbols);
      FitsTail(toks, d);
      match toks[0]
      case Literal(c) =>
        var s := [c] + tail;
        assert Render(toks, d) == s;
        assert s[1..] == tail;
        ScanRender(toks[1..], d, acc, expandYear);
      case Field(sym, w) =>
        var f := RenderField(d, sym, w);
        var s := f + tail;
        assert Render(toks, d) == s;
        assert FieldValue(d, sym, w) < Pow10(w) by {
          assert toks[0].Field?;
        }
        RenderFieldDigits(d, sym, w);
        assert s[..w] == f && s[w..] == tail;
        ScanRender(toks[1..], d, SetField(acc, sym, w, FieldValue(d, sym, w), expandYear), expandYear);
    }
  }

  /** Collecting `d`'s shown values restores `d` when every component the
      pattern omits already agrees and any two-digit year widens back. */
  lemma {:induction false} CollectRestores(toks: seq<Token>, d: Date, acc: Date, expandYear: nat -> nat)
    requires AgreesOffPattern(toks, d, acc)
    requires HasTwoDigitYear(toks) ==> expandYear(d.year % 100) == d.year
    ensures Collect(toks, d, acc, expandYear) == d
    decreases |toks|
  {
    if |toks| == 0 {
      assert !Mentions(toks, 'y') && !Mentions(toks, 'M') && !Mentions(toks, 'd');
      assert !Mentions(toks, 'H') && !Mentions(toks, 'm') && !Mentions(toks, 's');
    } else {
      var acc' := match toks[0]
        case Literal(_) => acc
        case Field(sym, w) => SetField(acc, sym, w, FieldValue(d, sym, w), expandYear);
      assert HasTwoDigitYear(toks[1..]) ==> HasTwoDigitYear(toks) by {
        if HasTwoDigitYear(toks[1..]) {
          var i :| 0 <= i < |toks[1..]| && toks[1..][i] == Field('y', 2);
          assert toks[i + 1] == Field('y', 2);
        }
      }
      forall sym | sym in Symbols && Mentions(toks, sym) && !Mentions(toks[1..], sym)
        ensures toks[0] == Field(sym, toks[0].width)
      {
        var i :| 0 <= i < |toks| && toks[i].Field? && toks[i].symbol == sym;
        if i > 0 {
          assert toks[1..][i - 1] == toks[i];
        }
      }
      if toks[0].Field? && toks[0].symbol == 'y' && toks[0].width == 2 {
        assert HasTwoDigitYear(toks);
      }
      CollectRestores(toks[1..], d, acc', expandYear);
    }
  }

  /** Scanning a rendered date gives the date back, provided every field value
      fits its width, the components the pattern omits hold their epoch values,
      and a two-digit year (if any) widens back to the year. */
  lemma RoundTrip(c: Converter, d: Date, expandYear: nat -> nat)
    requires ValidDate(d) && c.pattern != ""
    requires Fits(Tokens(c), d)
    requires AgreesOffPattern(Tokens(c), d, Epoch)
    requires HasTwoDigitYear(Tokens(c)) ==> expandYear(d.year % 100) == d.year
    ensures StringToValue(c, Some(ValueToString(c, Some(d))), expandYear) == Ok(Some(d))
  {
    ScanRender(Tokens(c), d, Epoch, expandYear);
    CollectRestores(Tokens(c), d, Epoch, expandYear);
  }

  // ---------------------------------------------------------------------------
  // Dates with components the pattern omits

  /** `d` and `e` show the same value in every field of the pattern. */
  predicate SameFields(toks: seq<Token>, d: Date, e: Date) {
    forall i :: 0 <= i < |toks| && toks[i].Field? ==>
      FieldValue(d, toks[i].symbol, toks[i].width) == FieldValue(e, toks[i].symbol, toks[i].width)
  }

  /** What a scan can recover of `d`: the components the pattern shows, and
      the epoch values for the rest. */
  function OnPattern(toks: seq<Token>, d: Date): (r: Date)
    ensures AgreesOffPattern(toks, r, Epoch)
    ensures SameFields(toks, d, r)
    ensures AgreesOffPattern(toks, d, Epoch) ==> r == d
  {
    var r := Date(
      if Mentions(toks, 'y') then d.year else Epoch.year,
      if Mentions(toks, 'M') then d.month else Epoch.month,
      if Mentions(toks, 'd') then d.day else Epoch.day,
      if Mentions(toks, 'H') then d.hour else Epoch.hour,
      if Mentions(toks, 'm') then d.minute else Epoch.minute,
      if Mentions(toks, 's') then d.second else Epoch.second);
    forall i | 0 <= i < |toks| && toks[i].Field?
      ensures FieldValue(d, toks[i].symbol, toks[i].width) == FieldValue(r, toks[i].symbol, toks[i].width)
    {
      assert Mentions(toks, toks[i].symbol);
    }
    r
  }

  lemma SameFieldsTail(toks: seq<Token>, d: Date, e: Date)
    requires |toks| > 0 && SameFields(toks, d, e)
    ensures SameFields(toks[1..], d, e)
  {
    forall i | 0 <= i < |toks[1..]| && toks[1..][i].Field?
      ensures FieldValue(d, toks[1..][i].symbol, toks[1..][i].width) == FieldValue(e, toks[1..][i].symbol, toks[1..][i].width)
    {
      assert toks[1..][i] == toks[i + 1];
    }
  }

  /** Dates showing the same field values render alike. */
  lemma {:induction false} RenderSameFields(toks: seq<Token>, d: Date, e: Date)
    requires SameFields(toks, d, e)
    ensures Render(toks, d) == Render(toks, e)
    decreases |toks|
  {
    if |toks| > 0 {
      SameFieldsTail(toks, d, e);
      RenderSameFields(toks[1..], d, e);
      if toks[0].Field? {
        assert FieldValue(d, toks[0].symbol, toks[0].width) == FieldValue(e, toks[0].symbol, toks[0].width);
      }
    }
  }

  /** Dates showing the same field values collect alike. */
  lemma {:induction false} CollectSameFields(toks: seq<Token>, d: Date, e: Date, acc: Date, expandYear: nat -> nat)
    requires SameFields(toks, d, e)
    ensures Collect(toks, d, acc, expandYear) == Collect(toks, e, acc, expandYear)
    decreases |toks|
  {
    if |toks| > 0 {
      SameFieldsTail(toks, d, e);
      var acc' := match toks[0]
        case Literal(_) => acc
        case Field(sym, w) => SetField(acc, sym, w, FieldValue(d, sym, w), expandYear);
      if toks[0].Field? {
        assert FieldValue(d, toks[0].symbol, toks[0].width) == FieldValue(e, toks[0].symbol, toks[0].width);
      }
      CollectSameFields(toks[1..], d, e, acc', expandYear);
    }
  }

  /** Parsing the rendering of any date whose fields fit gives the date with
      the components the pattern omits at their epoch values, or a parse error
      when that is no calendar date. */
  lemma RoundTripOnPattern(c: Converter, d: Date, expandYear: nat -> nat)
    requires c.pattern != ""
    requires Fits(Tokens(c), d)
    requires HasTwoDigitYear(Tokens(c)) ==> expandYear(d.year % 100) == d.year
    ensures var e := OnPattern(Tokens(c), d);
      StringToValue(c, Some(ValueToString(c, Some(d))), expandYear)
        == if ValidDate(e) then Ok(Some(e)) else Err(ParseError(ValueToString(c, Some(d))))
  {
    var toks := Tokens(c);
    var e := OnPattern(toks, d);
    if HasTwoDigitYear(toks) {
      var i :| 0 <= i < |toks| && toks[i] == Field('y', 2);
      assert toks[i].Field? && toks[i].symbol == 'y';
      assert e.year == d.year;
    }
    ScanRender(toks, d, Epoch, expandYear);
    CollectSameFields(toks, d, e, Epoch, expandYear);
    CollectRestores(toks, e, Epoch, expandYear);
  }

  // ---------------------------------------------------------------------------
  // What a successful parse returns

  /** No field symbol occurs twice in the pattern. */
  predicate Unrepeated(toks: seq<Token>) {
    forall i, j :: 0 <= i < j < |toks| && toks[i].Field? && toks[j].Field? ==> toks[i].symbol != toks[j].symbol
  }

  /** The component of a date a field symbol stands for. */
  function Component(d: Date, sym: char): nat {
    match sym
    case 'y' => d.year
    case 'M' => d.month
    case 'd' => d.day
    case 'H' => d.hour
    case 'm' => d.minute
    case 's' => d.second
    case _ => 0
  }

  /** Storing one field leaves every other component alone. */
  lemma SetFieldKeeps(acc: Date, f: char, w: nat, v: nat, expandYear: nat -> nat, sym: char)
    requires f != sym
    ensures Component(SetField(acc, f, w, v, expandYear), sym) == Component(acc, sym)
  {
  }

  /** A scan leaves the components its pattern does not mention as it found them. */
  lemma {:induction false} ScanKeeps(toks: seq<Token>, s: string, acc: Date, expandYear: nat -> nat, r: Date, sym: char)
    requires Scan(toks, s, acc, expandYear) == Some(r) && !Mentions(toks, sym)
    ensures Component(r, sym) == Component(acc, sym)
    decreases |toks|
  {
    if |toks| > 0 {
      MentionsTail(toks, sym);
      if toks[0].Literal? {
        assert Scan(toks[1..], s[1..], acc, expandYear) == Some(r);
        ScanKeeps(toks[1..], s[1..], acc, expandYear, r, sym);
      } else {
        var f, w := toks[0].symbol, toks[0].width;
        assert f != sym by { assert toks[0].Field? && toks[0].symbol == f; }
        assert |s| >= w && AllDigitChars(s[..w]);
        var acc' := SetField(acc, f, w, FromDigits(Values(s[..w])), expandYear);
        assert Scan(toks[1..], s[w..], acc', expandYear) == Some(r);
        ScanKeeps(toks[1..], s[w..], acc', expandYear, r, sym);
        SetFieldKeeps(acc, f, w, FromDigits(Values(s[..w])), expandYear, sym);
      }
    }
  }

  lemma MentionsTail(toks: seq<Token>, sym: char)
    requires |toks| > 0
    ensures Mentions(toks[1..], sym) ==> Mentions(toks, sym)
  {
    if Mentions(toks[1..], sym) {
      var i :| 0 <= i < |toks[1..]| && toks[1..][i].Field? && toks[1..][i].symbol == sym;
      assert toks[i + 1] == toks[1..][i];
    }
  }

  lemma UnrepeatedTail(toks: seq<Token>)
    requires |toks| > 0 && Unrepeated(toks)
    ensures Unrepeated(toks[1..])
  {
    var rest := toks[1..];
    forall i, j | 0 <= i < j < |rest| && rest[i].Field? && rest[j].Field?
      ensures rest[i].symbol != rest[j].symbol
    {
      assert rest[i] == toks[i + 1] && rest[j] == toks[j + 1];
    }
  }

  /** The symbol of the first field occurs nowhere after it. */
  lemma FirstFieldUnrepeated(toks: seq<Token>, sym: char, w: nat)
    requires |toks| > 0 && Unrepeated(toks) && toks[0] == Field(sym, w)
    ensures !Mentions(toks[1..], sym)
  {
  }

  lemma TwoDigitYearTail(toks: seq<Token>)
    requires |toks| > 0
    ensures HasTwoDigitYear(toks[1..]) ==> HasTwoDigitYear(toks)
    ensures toks[0] == Field('y', 2) ==> HasTwoDigitYear(toks)
  {
    if HasTwoDigitYear(toks[1..]) {
      var i :| 0 <= i < |toks[1..]| && toks[1..][i] == Field('y', 2);
      assert toks[i + 1] == Field('y', 2);
    }
  }

  /** A field shows again the digits it was scanned from, once the scanned
      value is stored and left alone. */
  lemma ReadFieldBack(r: Date, acc: Date, sym: char, t: string, expandYear: nat -> nat)
    requires sym in Symbols && |t| >= 1 && AllDigitChars(t)
    requires Component(r, sym) == Component(SetField(acc, sym, |t|, FromDigits(Values(t)), expandYear), sym)
    requires sym == 'y' && |t| == 2 ==> forall v :: v < 100 ==> expandYear(v) % 100 == v
    ensures RenderField(r, sym, |t|) == t
  {
    var v := FromDigits(Values(t));
    assert FieldValue(r, sym, |t|) == v by {
      if sym == 'y' && |t| == 2 {
        assert v < Pow10(2);
      }
    }
    PadLeftFromDigits(Values(t));
  }

  /** Every date a scan builds renders back to the scanned text, when no field
      symbol repeats and a two-digit year keeps its last two digits. */
  lemma {:induction false} ScanRendersBack(toks: seq<Token>, s: string, acc: Date, expandYear: nat -> nat, r: Date)
    requires Canonical(toks, Symbols) && Unrepeated(toks)
    requires HasTwoDigitYear(toks) ==> forall v :: v < 100 ==> expandYear(v) % 100 == v
    requires Scan(toks, s, acc, expandYear) == Some(r)
    ensures Render(toks, r) == s
    decreases |toks|
  {
    if |toks| > 0 {
      var rest := toks[1..];
      assert Canonical(rest, Symbols);
      UnrepeatedTail(toks);
      TwoDigitYearTail(toks);
      match toks[0]
      case Literal(c) =>
        ScanRendersBack(rest, s[1..], acc, expandYear, r);
        assert s[..1] == [c];
        RenderHeadTail(toks, r, 1, s);
      case Field(sym, w) =>
        assert toks[0] == Field(sym, w) && sym in Symbols && w >= 1;
        assert |s| >= w && AllDigitChars(s[..w]);
        var acc' := SetField(acc, sym, w, FromDigits(Values(s[..w])), expandYear);
        ScanRendersBack(rest, s[w..], acc', expandYear, r);
        FieldShownBack(toks, sym, w, s, acc, expandYear, r);
        RenderHeadTail(toks, r, w, s);
    }
  }

  /** After a scan, the leading field shows the digits it consumed: no later
      field overwrites its component. */
  lemma FieldShownBack(toks: seq<Token>, sym: char, w: nat, s: string, acc: Date, expandYear: nat -> nat, r: Date)
    requires |toks| > 0 && Unrepeated(toks) && toks[0] == Field(sym, w)
    requires sym in Symbols && w >= 1 && |s| >= w && AllDigitChars(s[..w])
    requires sym == 'y' && w == 2 ==> forall v :: v < 100 ==> expandYear(v) % 100 == v
    requires Scan(toks[1..], s[w..], SetField(acc, sym, w, FromDigits(Values(s[..w])), expandYear), expandYear) == Some(r)
    ensures Show(toks[0], r) == s[..w]
  {
    FirstFieldUnrepeated(toks, sym, w);
    ScanKeeps(toks[1..], s[w..], SetField(acc, sym, w, FromDigits(Values(s[..w])), expandYear), expandYear, r, sym);
    ReadFieldBack(r, acc, sym, s[..w], expandYear);
  }

  /** A rendering is the leading token's text followed by the rest's. */
  lemma RenderHeadTail(toks: seq<Token>, r: Date, n: nat, s: string)
    requires |toks| > 0 && n <= |s|
    requires Show(toks[0], r) == s[..n] && Render(toks[1..], r) == s[n..]
    ensures Render(toks, r) == s
  {
    assert s == s[..n] + s[n..];
  }

  /** A successful parse returns the one date that renders as the parsed text,
      with the components the pattern omits at their epoch values. So a text
      that names no calendar date, like `02/30/2001` under `MM/dd/yyyy`, is an
      error. This holds when no field symbol repeats and a two-digit year keeps
      its last two digits. */
  lemma ParsedRendersBack(c: Converter, text: string, expandYear: nat -> nat, d: Date)
    requires Unrepeated(Tokens(c))
    requires HasTwoDigitYear(Tokens(c)) ==> forall v :: v < 100 ==> expandYear(v) % 100 == v
    requires StringToValue(c, Some(text), expandYear) == Ok(Some(d))
    ensures ValueToString(c, Some(d)) == text
    ensures AgreesOffPattern(Tokens(c), d, Epoch)
  {
    var toks := Tokens(c);
    ScanRendersBack(toks, text, Epoch, expandYear, d);
    if !Mentions(toks, 'y') { ScanKeeps(toks, text, Epoch, expandYear, d, 'y'); }
    if !Mentions(toks, 'M') { ScanKeeps(toks, text, Epoch, expandYear, d, 'M'); }
    if !Mentions(toks, 'd') { ScanKeeps(toks, text, Epoch, expandYear, d, 'd'); }
    if !Mentions(toks, 'H') { ScanKeeps(toks, text, Epoch, expandYear, d, 'H'); }
    if !Mentions(toks, 'm') { ScanKeeps(toks, text, Epoch, expandYear, d, 'm'); }
    if !Mentions(toks, 's') { ScanKeeps(toks, text, Epoch, expandYear, d, 's'); }
  }
}
