/** The pattern tokenizer of the date converter.

    A pattern is split into tokens: every maximal run of one repeated symbol
    of the active alphabet is a field that records the symbol and the run
    length; every other character is a one-character literal.
 */
module PatternTokenizer {

  datatype Token = Literal(text: char) | Field(symbol: char, width: nat)

  function Repeat(c: char, n: nat): (s: string)
    ensures |s| == n
    ensures forall i :: 0 <= i < n ==> s[i] == c
  {
    seq(n, i => c)
  }

  /** The text a token stands for in its pattern. */
  function Spelling(t: Token): string {
    match t
    case Literal(c) => [c]
    case Field(s, w) => Repeat(s, w)
  }

  /** The pattern text a token sequence was read from. */
  function Untokenize(toks: seq<Token>): string {
    if |toks| == 0 then "" else Spelling(toks[0]) + Untokenize(toks[1..])
  }

  /** Literals are characters outside the alphabet, fields are non-empty runs
      of an alphabet symbol, and no field is directly followed by another
      run of its own symbol (runs are maximal).
   */
  predicate Canonical(toks: seq<Token>, alphabet: set<char>) {
    && (forall i :: 0 <= i < |toks| && toks[i].Literal? ==> toks[i].text !in alphabet)
    && (forall i :: 0 <= i < |toks| && toks[i].Field? ==> toks[i].symbol in alphabet && toks[i].width >= 1)
    && (forall i :: 0 <= i < |toks| - 1 && toks[i].Field? && toks[i + 1].Field? ==>
          toks[i].symbol != toks[i + 1].symbol)
  }

  /** The number of leading copies of `c` in `p`. */
  function RunLength(p: string, c: char): (n: nat)
    ensures n <= |p|
    ensures forall i :: 0 <= i < n ==> p[i] == c
    ensures n == |p| || p[n] != c
  {
    if |p| == 0 || p[0] != c then 0 else 1 + RunLength(p[1..], c)
  }

  /** A valid token in front of a canonical sequence keeps it canonical,
      provided a field is not followed by a run of its own symbol. */
  lemma CanonicalCons(t: Token, rest: seq<Token>, alphabet: set<char>)
    requires Canonical(rest, alphabet)
    requires t.Literal? ==> t.text !in alphabet
    requires t.Field? ==> t.symbol in alphabet && t.width >= 1
    requires t.Field? && |rest| > 0 && rest[0].Field? ==> rest[0].symbol != t.symbol
    ensures Canonical([t] + rest, alphabet)
  {
    var toks := [t] + rest;
    forall i | 1 <= i < |toks|
      ensures toks[i] == rest[i - 1]
    {
    }
  }

  function Tokenize(p: string, alphabet: set<char>): (toks: seq<Token>)
    ensures Untokenize(toks) == p
    ensures Canonical(toks, alphabet)
    ensures |p| == 0 <==> |toks| == 0
    ensures |p| > 0 ==> Spelling(toks[0])[0] == p[0]
    decreases |p|
  {
    if |p| == 0 then []
    else if p[0] in alphabet then
      var n := RunLength(p, p[0]);
      var rest := Tokenize(p[n..], alphabet);
      assert Repeat(p[0], n) == p[..n];
      assert p == p[..n] + p[n..];
      assert Untokenize([Field(p[0], n)] + rest) == Repeat(p[0], n) + Untokenize(rest) by {
        assert ([Field(p[0], n)] + rest)[1..] == rest;
      }
      CanonicalCons(Field(p[0], n), rest, alphabet);
      [Field(p[0], n)] + rest
    else
      var rest := Tokenize(p[1..], alphabet);
      assert p == [p[0]] + p[1..];
      assert Untokenize([Literal(p[0])] + rest) == [p[0]] + Untokenize(rest) by {
        assert ([Literal(p[0])] + rest)[1..] == rest;
      }
      CanonicalCons(Literal(p[0]), rest, alphabet);
      [Literal(p[0])] + rest
  }

  lemma RunOfRepeat(c: char, w: nat, rest: string)
    requires |rest| == 0 || rest[0] != c
    ensures RunLength(Repeat(c, w) + rest, c) == w
  {
    var p := Repeat(c, w) + rest;
    if w == 0 {
      assert p == rest;
    } else {
      RunOfRepeat(c, w - 1, rest);
      assert p[1..] == Repeat(c, w - 1) + rest;
    }
  }

  lemma UntokenizeHead(toks: seq<Token>)
    requires |toks| > 0 && (toks[0].Literal? || toks[0].width >= 1)
    ensures |Untokenize(toks)| > 0 && Untokenize(toks)[0] == Spelling(toks[0])[0]
  {
  }

  /** Tokenizing is the exact inverse of spelling out a canonical token sequence. */
  lemma {:induction false} TokenizeUntokenize(toks: seq<Token>, alphabet: set<char>)
    requires Canonical(toks, alphabet)
    ensures Tokenize(Untokenize(toks), alphabet) == toks
    decreases |toks|
  {
    if |toks| > 0 {
      var rest := Untokenize(toks[1..]);
      var p := Untokenize(toks);
      assert Canonical(toks[1..], alphabet);
      TokenizeUntokenize(toks[1..], alphabet);
      match toks[0]
      case Literal(c) =>
        assert p == [c] + rest;
        assert p[1..] == rest;
      case Field(s, w) =>
        assert p == Repeat(s, w) + rest;
        if |rest| > 0 {
          UntokenizeHead(toks[1..]);
        }
        RunOfRepeat(s, w, rest);
        assert p[w..] == rest;
    }
  }

  lemma {:induction false} UntokenizeConcat(a: seq<Token>, b: seq<Token>)
    ensures Untokenize(a + b) == Untokenize(a) + Untokenize(b)
    decreases |a|
  {
    if |a| == 0 {
      assert a + b == b;
    } else {
      assert (a + b)[1..] == a[1..] + b;
      UntokenizeConcat(a[1..], b);
    }
  }

  /** Two canonical token sequences join into a canonical one unless the
      first ends with a run of the symbol the second starts with. */
  lemma CanonicalConcat(a: seq<Token>, b: seq<Token>, alphabet: set<char>)
    requires Canonical(a, alphabet) && Canonical(b, alphabet)
    requires |a| > 0 && |b| > 0 && a[|a| - 1].Field? && b[0].Field? ==> a[|a| - 1].symbol != b[0].symbol
    ensures Canonical(a + b, alphabet)
  {
    var ab := a + b;
    forall i | 0 <= i < |ab| - 1 && ab[i].Field? && ab[i + 1].Field?
      ensures ab[i].symbol != ab[i + 1].symbol
    {
      if i + 1 < |a| {
        assert ab[i] == a[i] && ab[i + 1] == a[i + 1];
      } else if i >= |a| {
        assert ab[i] == b[i - |a|] && ab[i + 1] == b[i - |a| + 1];
      }
    }
  }
}
